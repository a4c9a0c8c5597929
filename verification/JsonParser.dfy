/** The recursive-descent parser (rj_json.c), filling the token array; it follows the parser given as functions. */
module JsonParser {
  import opened Bytes
  import opened BootFormat
  import opened JsonText
  import opened JsonGrammar
  import opened JsonExact
  import opened JsonTokens

  /** `RjJson`; `finite` says whether the double of a number's text is finite. */
  class Json {
    const text: seq<byte>
    const finite: seq<byte> -> bool
    const t: array<Token>
    var count: nat
    var pos: nat

    predicate Valid()
      reads this
    {
      t.Length == TOKENS && count <= TOKENS && 0 !in text
    }

    constructor (text: seq<byte>, finite: seq<byte> -> bool)
      requires 0 !in text
      ensures Valid() && this.text == text && this.finite == finite && count == 0 && pos == 0 && fresh(t)
    {
      this.text, this.finite := text, finite;
      t := new Token[TOKENS](_ => Token(0, 0, 0, 0, 0));
      count, pos := 0, 0;
    }

    /** `space` */
    method Space()
      requires pos <= |text|
      modifies this`pos
      ensures pos == SkipSpace(text, old(pos))
    {
      ghost var p := pos;
      while pos < |text| && IsSpace(text[pos])
        invariant p <= pos <= |text| && SkipSpace(text, p) == SkipSpace(text, pos)
      {
        pos := pos + 1;
      }
    }

    method Digits(p: nat) returns (q: nat)
      requires p <= |text|
      ensures q == SkipDigits(text, p)
    {
      q := p;
      while IsDecimal(At(text, q))
        invariant p <= q <= |text| && SkipDigits(text, p) == SkipDigits(text, q)
        decreases |text| - q
      {
        q := q + 1;
      }
    }

    method ScanInteger(b: nat) returns (e: Option<nat>)
      requires b <= |text|
      ensures e == IntegerEnd(text, b)
    {
      if At(text, b) == '0' as int {
        return Some(b + 1);
      }
      if !('1' as int <= At(text, b) <= '9' as int) {
        return None;
      }
      var q := Digits(b);
      return Some(q);
    }

    method ScanFraction(b: nat) returns (e: Option<nat>)
      requires b <= |text|
      ensures e == FractionEnd(text, b)
    {
      if At(text, b) != '.' as int {
        return Some(b);
      }
      if !IsDecimal(At(text, b + 1)) {
        return None;
      }
      var q := Digits(b + 1);
      return Some(q);
    }

    method ScanExponent(b: nat) returns (e: Option<nat>)
      requires b <= |text|
      ensures e == ExponentEnd(text, b)
    {
      var p := b;
      if At(text, p) != 'e' as int && At(text, p) != 'E' as int {
        return Some(p);
      }
      p := p + 1;
      if At(text, p) == '+' as int || At(text, p) == '-' as int {
        p := p + 1;
      }
      if !IsDecimal(At(text, p)) {
        return None;
      }
      p := Digits(p);
      return Some(p);
    }

    /** The number branch: where the number at `b` ends. */
    method ScanNumber(b: nat) returns (e: Option<nat>)
      requires b < |text|
      ensures e == NumberEnd(text, b)
    {
      hide IntegerEnd, FractionEnd, ExponentEnd;
      e := ScanInteger(if text[b] == '-' as int then b + 1 else b);
      if e.None? {
        return;
      }
      NumberParts(text, if text[b] == '-' as int then b + 1 else b);
      e := ScanFraction(e.value);
      if e.None? {
        return;
      }
      e := ScanExponent(e.value);
    }

    /** `k` is the index of a string token. */
    predicate IsText(k: int)
      requires Valid()
      reads this, t
    {
      0 <= k < count && t[k].kind == KIND_TEXT
    }

    /** If so, the string stands in the text. */
    predicate InText(k: int)
      requires Valid()
      reads this, t
    {
      IsText(k) ==> t[k].start <= t[k].end <= |text| && Chars(text[t[k].start..t[k].end])
    }

    /** `rj_string` of token `k` into a buffer of `cap` bytes. */
    method StringOf(k: int, cap: nat) returns (s: Option<seq<byte>>)
      requires Valid() && InText(k)
      ensures !IsText(k) ==> s == None
      ensures IsText(k) ==>
                s == (var d := Decoded(text[t[k].start..t[k].end]); if d.Some? && |d.value| < cap then d else None)
    {
      if !IsText(k) || cap == 0 {
        return None;
      }
      var out := new byte[cap];
      var n := DecodeInto(text[t[k].start..t[k].end], out);
      s := if n == -1 then None else Some(out[..n]);
    }

    /** The branches for values that contain no others: fills token `k` and moves on. */
    method ParseScalarAt(k: nat, b: nat) returns (ok: bool)
      requires Valid() && count == k + 1 && b < |text| && pos == b + 1
      modifies this`pos, t
      ensures ok <==> ParseScalar(text, b, finite).Some?
      ensures ok ==> pos == Finish(ParseScalar(text, b, finite).value)
      ensures ok ==> Tokens(ParseScalar(text, b, finite).value, k) == [t[k]]
      ensures forall i :: 0 <= i < TOKENS && i != k ==> t[i] == old(t[i])
    {
      hide NumberEnd, ScanFrom, Decoded, Chars;
      ok := false;
      var c := text[b];
      if c == QUOTE {
        var e := ScanString(text, b + 1);
        if e.None? {
          return;
        }
        ScanSound(text, b + 1);
        t[k] := Token(b + 1, e.value, count, 0, KIND_TEXT);
        pos := e.value + 1;
        var d := StringOf(k, DECODED_MAX + 1);
        ok := d.Some?;
      } else if c == TRUE[0] || c == FALSE[0] || c == NULL[0] {
        var word := WordFor(c);
        if b + |word| > |text| || text[b..b + |word|] != word {
          return;
        }
        pos := b + |word|;
        t[k] := Token(b, pos, count, 0, c);
        ok := true;
      } else {
        var e := ScanNumber(b);
        if e.None? {
          return;
        }
        pos := e.value;
        t[k] := Token(b, pos, count, 0, KIND_NUMBER);
        ok := finite(text[b..pos]) && pos - b <= NUMBER_MAX;
      }
    }

    /** What `parse_value` gives is what the function gives, unless the tokens run out. */
    ghost predicate Parsed(ok: bool, p: nat, k: nat, depth: nat)
      requires p <= |text|
      reads this, t
    {
      var r := ParseValue(text, p, depth, finite);
      && t.Length == TOKENS && k <= count <= TOKENS
      && (ok <==> r.Some? && k + Size(r.value) <= TOKENS)
      && (ok ==> pos == Finish(r.value) && count == k + Size(r.value) && Holds(t[..], k, Tokens(r.value, k)))
    }

    /** `parse_value` */
    method Value(depth: nat) returns (ok: bool)
      requires Valid() && pos <= |text| && depth <= MAX_DEPTH + 1
      modifies this`pos, this`count, t
      ensures Valid() && Parsed(ok, old(pos), old(count), depth)
      ensures forall i :: 0 <= i < old(count) ==> t[i] == old(t[i])
      decreases MAX_DEPTH + 1 - depth, 0
    {
      hide ParseValue, ParsedList, ParsedDict, ParseScalar, Tokens, Size, Holds, SkipSpace;
      ok := false;
      var k := count;
      ValueBranches(text, pos, depth, finite);
      if depth > MAX_DEPTH || count >= TOKENS {
        return;
      }
      Space();
      if pos >= |text| {
        return;
      }
      count := count + 1;
      var b := pos;
      pos := pos + 1;
      if text[b] == OPEN_DICT {
        ok := DictValue(k, b, depth);
      } else if text[b] == OPEN_LIST {
        ok := ListValue(k, b, depth);
      } else {
        ok := ParseScalarAt(k, b);
        if ok {
          ScalarToken(t[..], k, ParseScalar(text, b, finite).value);
        }
        ScalarSize(text, b, finite);
      }
    }

    /**
     * `rj_parse`: succeeds exactly on the documents whose values fit the token array, and fills it with their
     * tokens.
     */
    method Parse() returns (ok: bool)
      requires Valid() && count == 0 && pos == 0
      modifies this`pos, this`count, t
      ensures Valid()
      ensures ok <==> exists v :: Document(text, v, finite) && Size(v) <= TOKENS
      ensures ok ==> exists v :: Document(text, v, finite) && count == Size(v) && Holds(t[..], 0, Tokens(v, 0))
    {
      hide Spelled, Fits, ParseValue, Tokens, Size, Holds, Utf8, SkipSpace;
      ok := CheckUtf8(text);
      ghost var d := ParseDocument(text, finite);
      forall v ensures d == Some(v) <==> Document(text, v, finite) {
        ParseExact(text, v, finite);
      }
      if !ok {
        return;
      }
      ok := Value(0);
      if !ok {
        return;
      }
      Space();
      ok := pos == |text|;
    }

    /** The branch for a list whose bracket stands at `b`. */
    method ListValue(k: nat, b: nat, depth: nat) returns (ok: bool)
      requires Valid() && count == k + 1 && b < |text| && pos == b + 1 && text[b] == OPEN_LIST && depth <= MAX_DEPTH
      modifies this`pos, this`count, t
      ensures Valid() && count > k
      ensures ok <==>
                ParsedList(text, b, depth, finite).Some? && k + Size(ParsedList(text, b, depth, finite).value) <= TOKENS
      ensures ok ==> var v := ParsedList(text, b, depth, finite).value;
                     pos == Finish(v) && count == k + Size(v) && Holds(t[..], k, Tokens(v, k))
      ensures forall i :: 0 <= i < k ==> t[i] == old(t[i])
      decreases MAX_DEPTH + 1 - depth, 0, 0
    {
      hide ParseItems;
      t[k] := Token(b, 0, 0, 0, OPEN_LIST);
      Space();
      var n := 0;
      if At(text, pos) != CLOSE_LIST {
        ok, n := ItemsLoop(k, depth + 1);
        if !ok {
          return;
        }
      }
      pos := pos + 1;
      t[k] := Token(b, pos, count, n, OPEN_LIST);
      ok := true;
    }

    /** The loop over the items: their number; it ends at the closing bracket. */
    method ItemsLoop(k: nat, depth: nat) returns (ok: bool, n: nat)
      requires Valid() && count == k + 1 && pos <= |text| && depth <= MAX_DEPTH + 1
      modifies this`pos, this`count, t
      ensures Valid() && count > k
      ensures ok <==> ParseItems(text, old(pos), depth, finite).Some?
                      && k + 1 + ItemsSize(ParseItems(text, old(pos), depth, finite).value.0) <= TOKENS
      ensures ok ==> var (items, q) := ParseItems(text, old(pos), depth, finite).value;
                     && pos == q && n == ItemsCount(items) && count == k + 1 + ItemsSize(items)
                     && Holds(t[..], k + 1, ItemTokens(items, k + 1))
      ensures forall i :: 0 <= i <= k ==> t[i] == old(t[i])
      decreases MAX_DEPTH + 1 - depth, 1
    {
      hide ParseValue, Tokens, Size, ItemTokens, ItemsSize, ItemsCount, AppendItems, SkipSpace, ParseItems, Holds;
      ok, n := false, 0;
      ghost var p0, done := pos, NoItem;
      NoItems(k + 1, ParseItems(text, p0, depth, finite));
      HoldsNothing(t[..], k + 1);
      while true
        invariant Valid() && pos <= |text| && count == k + 1 + ItemsSize(done) && n == ItemsCount(done)
        invariant Holds(t[..], k + 1, ItemTokens(done, k + 1))
        invariant ParseItems(text, p0, depth, finite) == Prefixed(done, ParseItems(text, pos, depth, finite))
        invariant forall i :: 0 <= i <= k ==> t[i] == old(t[i])
        decreases |text| - pos
      {
        ghost var p, c, before := pos, count, t[..];
        var read := Value(depth);
        if !read {
          ItemsFail(text, p, depth, finite, done, c, k);
          return;
        }
        ghost var v := ParseValue(text, p, depth, finite).value;
        ItemRound(text, p, depth, finite);
        ItemPlaced(before, t[..], done, v, k + 1);
        Space();
        n := n + 1;
        if At(text, pos) == CLOSE_LIST {
          ok := true;
          return;
        }
        if At(text, pos) != COMMA {
          return;
        }
        pos := pos + 1;
        Space();
        PrefixedTwice(done, v, ParseItems(text, pos, depth, finite));
        done := AppendItems(done, Item(v, NoItem));
      }
    }

    /** The branch for an object whose brace stands at `b`. */
    method DictValue(k: nat, b: nat, depth: nat) returns (ok: bool)
      requires Valid() && count == k + 1 && b < |text| && pos == b + 1 && text[b] == OPEN_DICT && depth <= MAX_DEPTH
      modifies this`pos, this`count, t
      ensures Valid() && count > k
      ensures ok <==>
                ParsedDict(text, b, depth, finite).Some? && k + Size(ParsedDict(text, b, depth, finite).value) <= TOKENS
      ensures ok ==> var v := ParsedDict(text, b, depth, finite).value;
                     pos == Finish(v) && count == k + Size(v) && Holds(t[..], k, Tokens(v, k))
      ensures forall i :: 0 <= i < k ==> t[i] == old(t[i])
      decreases MAX_DEPTH + 1 - depth, 0, 0
    {
      hide ParseMembers, SkipSpace;
      t[k] := Token(b, 0, 0, 0, OPEN_DICT);
      Space();
      var n := 0;
      if At(text, pos) != CLOSE_DICT {
        ok, n := MembersLoop(k, depth + 1);
        if !ok {
          return;
        }
      }
      pos := pos + 1;
      t[k] := Token(b, pos, count, n, OPEN_DICT);
      ok := true;
    }

    /** The key of a member: a string that decodes into the key buffer and differs from the keys before it. */
    method MemberKey(k: nat, depth: nat, ghost done: Members, ghost seen: seq<seq<byte>>)
      returns (ok: bool, key: seq<byte>)
      requires Valid() && pos <= |text| && depth <= MAX_DEPTH + 1 && count == k + 1 + MembersSize(done)
      requires Holds(t[..], k + 1, MemberTokens(done, k + 1)) && KeysRead(text, done, seen)
      modifies this`pos, this`count, t
      ensures Valid() && count > k
      ensures ok <==> KeyParsed(text, old(pos), depth, seen, finite) && old(count) + 1 <= TOKENS
      ensures ok ==> ParseValue(text, old(pos), depth, finite).Some?
      ensures ok ==> var v := ParseValue(text, old(pos), depth, finite).value;
                     && v.Text? && Meaning(text, v) == Some(key) && |key| <= KEY_MAX && pos == Finish(v)
                           && pos <= |text|
                     && count == old(count) + 1 && Holds(t[..], old(count), Tokens(v, old(count)))
      ensures forall i :: 0 <= i < old(count) ==> t[i] == old(t[i])
      decreases MAX_DEPTH + 1 - depth, 1, 0
    {
      hide ParseValue, Spelled, Fits, Decoded, Chars, Size, Tokens, MemberTokens, MembersSize, MembersCount,
        SkipSpace, Holds, KeysRead;
      ok, key := false, [];
      ghost var p, before := pos, t[..];
      var x0 := count;
      if At(text, pos) != QUOTE {
        return;
      }
      var read := Value(depth);
      KeyIsText(text, p, depth, finite);
      if !read {
        return;
      }
      ghost var v := ParseValue(text, p, depth, finite).value;
      TextToken(t[..], v, x0);
      var a := StringOf(x0, KEY_MAX + 1);
      if a.None? {
        return;
      }
      key := a.value;
      HoldsKept(before, t[..], k + 1, MemberTokens(done, k + 1));
      var again := Repeated(k, x0, key, done, seen);
      ok := !again;
    }

    /** The walk over the keys before `x0`, in search of `key`. */
    method Repeated(k: nat, x0: nat, key: seq<byte>, ghost done: Members, ghost seen: seq<seq<byte>>)
      returns (found: bool)
      requires Valid() && x0 == k + 1 + MembersSize(done) < count
      requires Holds(t[..], k + 1, MemberTokens(done, k + 1)) && KeysRead(text, done, seen)
      ensures found <==> key in seen
    {
      hide Decoded, Chars, Size, Tokens, MemberTokens, MembersSize, MembersCount, Holds, KeysRead, KeyIndex, KeyAt;
      KeysCounted(text, done, seen);
      var x := k + 1;
      ghost var i := 0;
      FirstKeyIndex(done, k + 1);
      LastKeyIndex(done, k + 1);
      while x < x0
        invariant i <= |seen| && x == KeyIndex(done, i, k + 1)
        invariant forall j :: 0 <= j < i ==> seen[j] != key
        decreases x0 - x
      {
        MemberLinks(t[..], done, i, k + 1);
        KeyInText(text, done, seen, i);
        TextToken(t[..], KeyAt(done, i), x);
        var b := StringOf(x, KEY_MAX + 1);
        if b.None? || b.value == key {
          return true;
        }
        x := t[t[x].next].next;
        i := i + 1;
      }
      if i < |seen| {
        MemberLinks(t[..], done, i, k + 1);
      }
      found := false;
    }

    /** One member: key, colon and value. Without `ok`, the object cannot be read. */
    method MemberEntry(k: nat, depth: nat, ghost done: Members, ghost seen: seq<seq<byte>>)
      returns (ok: bool, ghost text0: seq<byte>, ghost key: JsonGrammar.Value, ghost v: JsonGrammar.Value)
      requires Valid() && pos <= |text| && depth <= MAX_DEPTH + 1 && count == k + 1 + MembersSize(done)
      requires Holds(t[..], k + 1, MemberTokens(done, k + 1)) && KeysRead(text, done, seen)
      modifies this`pos, this`count, t
      ensures Valid() && count > k
      ensures !ok ==> Unreadable(done, ParseMembers(text, old(pos), depth, seen, finite), k)
      ensures ok ==>
                && key.Text? && Meaning(text, key) == Some(text0) && |text0| <= KEY_MAX
                && old(pos) < pos == Finish(v) <= |text|
      ensures ok ==> RoundEnded(text, old(pos), depth, seen, finite, key, text0, v)
      ensures ok ==> var more := AppendMembers(done, Member(key, v, NoMember));
                     && Holds(t[..], k + 1, MemberTokens(more, k + 1)) && count == k + 1 + MembersSize(more)
                     && MembersCount(more) == MembersCount(done) + 1
      ensures forall i :: 0 <= i <= k ==> t[i] == old(t[i])
      decreases MAX_DEPTH + 1 - depth, 1, 1
    {
      hide ParseValue, Tokens, Size, MemberTokens, MembersSize, MembersCount, AppendMembers, SkipSpace, ParseMembers,
        KeyParsed, KeysRead, Meaning, Holds, RoundEnded, Unreadable;
      hide NumberEnd, Decoded, Chars;
      ghost var p, before := pos, t[..];
      ok, text0, key, v := false, [], JsonGrammar.Number(0, 0), JsonGrammar.Number(0, 0);
      var read, a := MemberKey(k, depth, done, seen);
      text0 := a;
      if !read {
        MembersFail(text, p, depth, seen, finite, done, k);
        return;
      }
      key := ParseValue(text, p, depth, finite).value;
      ghost var middle := t[..];
      Space();
      if At(text, pos) != COLON {
        NoColon(text, p, depth, seen, finite, done, k);
        return;
      }
      pos := pos + 1;
      ghost var p1 := pos;
      read := Value(depth);
      if !read {
        ValueFails(text, p, depth, seen, finite, done, k);
        return;
      }
      v := ParseValue(text, p1, depth, finite).value;
      MemberRound(text, p, depth, seen, finite);
      MemberPlaced(before, middle, t[..], done, key, v, k + 1);
      ok := true;
    }

    /** The loop over the members: their number; it ends at the closing brace. */
    method MembersLoop(k: nat, depth: nat) returns (ok: bool, n: nat)
      requires Valid() && count == k + 1 && pos <= |text| && depth <= MAX_DEPTH + 1
      modifies this`pos, this`count, t
      ensures Valid() && count > k
      ensures ok <==> ParseMembers(text, old(pos), depth, [], finite).Some?
                      && k + 1 + MembersSize(ParseMembers(text, old(pos), depth, [], finite).value.0) <= TOKENS
      ensures ok ==> var (members, q) := ParseMembers(text, old(pos), depth, [], finite).value;
                     && pos == q && n == MembersCount(members) && count == k + 1 + MembersSize(members)
                     && Holds(t[..], k + 1, MemberTokens(members, k + 1))
      ensures forall i :: 0 <= i <= k ==> t[i] == old(t[i])
      decreases MAX_DEPTH + 1 - depth, 2
    {
      hide ParseValue, Tokens, Size, MemberTokens, MembersSize, MembersCount, AppendMembers, SkipSpace, ParseMembers,
        KeyParsed, KeysRead, Meaning, Holds;
      hide NumberEnd, Decoded, Chars;
      ok, n := false, 0;
      ghost var p0, done, seen := pos, NoMember, [];
      NoMembers(text, k + 1, ParseMembers(text, p0, depth, [], finite));
      HoldsNothing(t[..], k + 1);
      while true
        invariant Valid() && pos <= |text| && count == k + 1 + MembersSize(done) && n == MembersCount(done)
        invariant Holds(t[..], k + 1, MemberTokens(done, k + 1)) && KeysRead(text, done, seen)
        invariant ParseMembers(text, p0, depth, [], finite)
                    == PrefixedMembers(done, ParseMembers(text, pos, depth, seen, finite))
        invariant forall i :: 0 <= i <= k ==> t[i] == old(t[i])
        decreases |text| - pos
      {
        ghost var p := pos;
        var read;
        ghost var text0, key, v;
        read, text0, key, v := MemberEntry(k, depth, done, seen);
        if !read {
          return;
        }
        Space();
        n := n + 1;
        if At(text, pos) == CLOSE_DICT {
          ok := true;
          return;
        }
        if At(text, pos) != COMMA {
          return;
        }
        pos := pos + 1;
        Space();
        KeyAdded(text, done, seen, key, v, text0);
        PrefixedMembersTwice(done, key, v, ParseMembers(text, pos, depth, seen + [text0], finite));
        done, seen := AppendMembers(done, Member(key, v, NoMember)), seen + [text0];
      }
    }
  }

  function PrefixedMembers(done: Members, r: Option<(Members, nat)>): Option<(Members, nat)>
  {
    if r.None? then None else Some((AppendMembers(done, r.value.0), r.value.1))
  }

  lemma NoMembers(t: seq<byte>, k: nat, r: Option<(Members, nat)>)
    ensures MembersSize(NoMember) == 0 && MembersCount(NoMember) == 0 && MemberTokens(NoMember, k) == []
    ensures r == PrefixedMembers(NoMember, r) && KeysRead(t, NoMember, [])
  {
  }

  lemma PrefixedMembersTwice(done: Members, key: JsonGrammar.Value, v: JsonGrammar.Value, r: Option<(Members, nat)>)
    ensures PrefixedMembers(done, PrefixedMembers(Member(key, v, NoMember), r))
         == PrefixedMembers(AppendMembers(done, Member(key, v, NoMember)), r)
  {
    if r.Some? {
      AppendMembersAssociative(done, Member(key, v, NoMember), r.value.0);
    }
  }

  /** The rest of the object cannot be read, or it needs more tokens than there are. */
  predicate Unreadable(done: Members, r: Option<(Members, nat)>, k: nat)
  {
    r.None? || k + 1 + MembersSize(AppendMembers(done, r.value.0)) > TOKENS
  }

  /** How a round of the loop goes on after its value, in terms of the function. */
  predicate RoundEnded(t: seq<byte>, p: nat, depth: nat, seen: seq<seq<byte>>, finite: seq<byte> -> bool,
                       key: JsonGrammar.Value, text: seq<byte>, v: JsonGrammar.Value)
    requires p <= |t| && Finish(v) <= |t|
  {
    var m := SkipSpace(t, Finish(v));
    && (At(t, m) == CLOSE_DICT ==> ParseMembers(t, p, depth, seen, finite) == Some((Member(key, v, NoMember), m)))
    && (At(t, m) != CLOSE_DICT && At(t, m) != COMMA ==> ParseMembers(t, p, depth, seen, finite).None?)
    && (At(t, m) == COMMA ==>
          m < |t| && ParseMembers(t, p, depth, seen, finite)
                  == PrefixedMembers(Member(key, v, NoMember),
                      ParseMembers(t, SkipSpace(t, m + 1), depth, seen + [text], finite)))
  }

  /** If a key or its value cannot be read, neither can the object. */
  lemma MembersFail(t: seq<byte>, p: nat, depth: nat, seen: seq<seq<byte>>, finite: seq<byte> -> bool, done: Members,
                    k: nat)
    requires p <= |t| && (KeyParsed(t, p, depth, seen, finite) ==> k + 1 + MembersSize(done) + 1 > TOKENS)
    ensures Unreadable(done, ParseMembers(t, p, depth, seen, finite), k)
  {
    hide ParseValue, SkipSpace, Size, ParseMembers, Meaning;
    var r := ParseMembers(t, p, depth, seen, finite);
    if r.Some? {
      var key, text, c, v, m := OpenMembers(t, p, depth, seen, finite);
      AppendMembersTokens(done, r.value.0, 0);
    }
  }

  lemma NoColon(t: seq<byte>, p: nat, depth: nat, seen: seq<seq<byte>>, finite: seq<byte> -> bool, done: Members,
                k: nat)
    requires p <= |t| && KeyParsed(t, p, depth, seen, finite)
    requires At(t, SkipSpace(t, Finish(ParseValue(t, p, depth, finite).value))) != COLON
    ensures Unreadable(done, ParseMembers(t, p, depth, seen, finite), k)
  {
    hide ParseValue, SkipSpace, Meaning;
  }

  lemma ValueFails(t: seq<byte>, p: nat, depth: nat, seen: seq<seq<byte>>, finite: seq<byte> -> bool, done: Members,
                   k: nat)
    requires p <= |t| && KeyParsed(t, p, depth, seen, finite)
    requires var c := SkipSpace(t, Finish(ParseValue(t, p, depth, finite).value));
             && At(t, c) == COLON && c < |t|
             && (ParseValue(t, c + 1, depth, finite).Some? ==>
                   k + 1 + MembersSize(done) + 1 + Size(ParseValue(t, c + 1, depth, finite).value) > TOKENS)
    ensures Unreadable(done, ParseMembers(t, p, depth, seen, finite), k)
  {
    hide ParseValue, SkipSpace, Size, ParseMembers, Meaning;
    var r := ParseMembers(t, p, depth, seen, finite);
    if r.Some? {
      var key, text, c, v, m := OpenMembers(t, p, depth, seen, finite);
      AppendMembersTokens(done, r.value.0, 0);
    }
  }

  /** A key, a colon and a value make a round of the loop over members. */
  lemma MemberRound(t: seq<byte>, p: nat, depth: nat, seen: seq<seq<byte>>, finite: seq<byte> -> bool)
    requires p <= |t| && KeyParsed(t, p, depth, seen, finite)
    requires var c := SkipSpace(t, Finish(ParseValue(t, p, depth, finite).value));
             At(t, c) == COLON && c < |t| && ParseValue(t, c + 1, depth, finite).Some?
    ensures var key := ParseValue(t, p, depth, finite).value;
            var c := SkipSpace(t, Finish(key));
            var v := ParseValue(t, c + 1, depth, finite).value;
            p < c < Finish(v) <= |t| && RoundEnded(t, p, depth, seen, finite, key, Meaning(t, key).value, v)
  {
    hide ParseValue, SkipSpace, Meaning, ParseMembers, RoundEnded;
    var key := ParseValue(t, p, depth, finite).value;
    var c := SkipSpace(t, Finish(key));
    var v := ParseValue(t, c + 1, depth, finite).value;
    RoundEnds(t, p, depth, seen, finite, key, c, v);
  }

  lemma RoundEnds(t: seq<byte>, p: nat, depth: nat, seen: seq<seq<byte>>, finite: seq<byte> -> bool,
                  key: JsonGrammar.Value, c: nat, v: JsonGrammar.Value)
    requires p < |t| && t[p] == QUOTE && ParseValue(t, p, depth, finite) == Some(key)
    requires Meaning(t, key).Some? && |Meaning(t, key).value| <= KEY_MAX && Meaning(t, key).value !in seen
    requires Finish(key) <= |t| && c == SkipSpace(t, Finish(key)) && c < |t| && At(t, c) == COLON
    requires ParseValue(t, c + 1, depth, finite) == Some(v)
    ensures RoundEnded(t, p, depth, seen, finite, key, Meaning(t, key).value, v)
  {
    hide ParseValue, ParseMembers, SkipSpace, Meaning, AppendMembers;
    var m := SkipSpace(t, Finish(v));
    RoundUnfolds(t, p, depth, seen, finite, key, c, v, m);
    if At(t, m) == COMMA {
      var r := ParseMembers(t, SkipSpace(t, m + 1), depth, seen + [Meaning(t, key).value], finite);
      if r.Some? {
        AppendOneMember(key, v, r.value.0);
      }
    }
  }

  lemma RoundUnfolds(t: seq<byte>, p: nat, depth: nat, seen: seq<seq<byte>>, finite: seq<byte> -> bool,
                     key: JsonGrammar.Value, c: nat, v: JsonGrammar.Value, m: nat)
    requires p < |t| && t[p] == QUOTE && ParseValue(t, p, depth, finite) == Some(key)
    requires Meaning(t, key).Some? && |Meaning(t, key).value| <= KEY_MAX && Meaning(t, key).value !in seen
    requires Finish(key) <= |t| && c == SkipSpace(t, Finish(key)) && c < |t| && At(t, c) == COLON
    requires ParseValue(t, c + 1, depth, finite) == Some(v) && m == SkipSpace(t, Finish(v))
    ensures At(t, m) == COMMA ==> m < |t|
    ensures ParseMembers(t, p, depth, seen, finite) ==
              if At(t, m) == CLOSE_DICT then Some((Member(key, v, NoMember), m))
              else if At(t, m) != COMMA then None
              else
                var r := ParseMembers(t, SkipSpace(t, m + 1), depth, seen + [Meaning(t, key).value], finite);
                if r.Some? then Some((Member(key, v, r.value.0), r.value.1)) else None
  {
    hide ParseValue, SkipSpace, Meaning, IsSpace, AllSpace;
  }

  lemma AppendOneMember(key: JsonGrammar.Value, v: JsonGrammar.Value, members: Members)
    ensures AppendMembers(Member(key, v, NoMember), members) == Member(key, v, members)
  {
    assert AppendMembers(NoMember, members) == members;
  }

  lemma OneMember(key: JsonGrammar.Value, v: JsonGrammar.Value, k: nat)
    ensures MemberTokens(Member(key, v, NoMember), k) == Tokens(key, k) + Tokens(v, k + Size(key))
    ensures MembersSize(Member(key, v, NoMember)) == Size(key) + Size(v) && MembersCount(Member(key, v, NoMember)) == 1
  {
    hide Tokens, Size;
    assert Tokens(key, k) + Tokens(v, k + Size(key)) + [] == Tokens(key, k) + Tokens(v, k + Size(key));
  }

  /** One more member behind those read. */
  lemma MemberPlaced(before: seq<Token>, middle: seq<Token>, after: seq<Token>, done: Members, key: JsonGrammar.Value,
                     v: JsonGrammar.Value, k: nat)
    requires |before| == |middle| == |after| && Holds(before, k, MemberTokens(done, k))
    requires var c := k + MembersSize(done);
             && key.Text? && Holds(middle, c, Tokens(key, c)) && Holds(after, c + 1, Tokens(v, c + 1))
             && (forall i :: 0 <= i < c ==> middle[i] == before[i])
                   && (forall i :: 0 <= i < c + 1 ==> after[i] == middle[i])
    ensures var more := AppendMembers(done, Member(key, v, NoMember));
            && Holds(after, k, MemberTokens(more, k)) && MembersSize(more) == MembersSize(done) + 1 + Size(v)
            && MembersCount(more) == MembersCount(done) + 1
  {
    hide Holds, Tokens, Size, MemberTokens, MembersSize, MembersCount, AppendMembers;
    AppendMembersTokens(done, Member(key, v, NoMember), k);
    var c := k + MembersSize(done);
    OneMember(key, v, c);
    TextSize(key);
    MembersBound(before, k, done);
    HoldsKept(before, middle, k, MemberTokens(done, k));
    HoldsKept(middle, after, k, MemberTokens(done, k));
    HoldsKept(middle, after, c, Tokens(key, c));
    HoldsJoin(after, c, Tokens(key, c), Tokens(v, c + 1));
    HoldsJoin(after, k, MemberTokens(done, k), Tokens(key, c) + Tokens(v, c + 1));
  }

  lemma TextSize(key: JsonGrammar.Value)
    requires key.Text?
    ensures Size(key) == 1
  {
  }

  lemma HoldsNothing(s: seq<Token>, k: nat)
    requires k <= |s|
    ensures Holds(s, k, [])
  {
  }

  lemma MembersBound(s: seq<Token>, k: nat, done: Members)
    requires Holds(s, k, MemberTokens(done, k))
    ensures k + MembersSize(done) <= |s|
  {
  }

  lemma KeyAdded(t: seq<byte>, done: Members, seen: seq<seq<byte>>, key: JsonGrammar.Value, v: JsonGrammar.Value,
                 text: seq<byte>)
    requires KeysRead(t, done, seen) && key.Text? && Meaning(t, key) == Some(text) && |text| <= KEY_MAX
    ensures KeysRead(t, AppendMembers(done, Member(key, v, NoMember)), seen + [text])
  {
    hide Meaning, AppendMembers;
    var one := Member(key, v, NoMember);
    AppendMembersTokens(done, one, 0);
    OneMember(key, v, 0);
    forall i | 0 <= i < |seen| + 1
      ensures KeyAt(AppendMembers(done, one), i).Text?
                && Meaning(t, KeyAt(AppendMembers(done, one), i)) == Some((seen + [text])[i])
      ensures |(seen + [text])[i]| <= KEY_MAX
    {
      KeyAtAppend(done, one, i);
    }
  }

  /** The object branch of the parser function. */
  function ParsedDict(t: seq<byte>, b: nat, depth: nat, finite: seq<byte> -> bool): (r: Option<JsonGrammar.Value>)
    requires b < |t|
    ensures r.Some? ==> r.value.Dict? && b < r.value.end <= |t|
  {
    var q := SkipSpace(t, b + 1);
    if At(t, q) == CLOSE_DICT then Some(Dict(b, q + 1, NoMember)) else
    var r := ParseMembers(t, q, depth + 1, [], finite);
    if r.Some? then Some(Dict(b, r.value.1 + 1, r.value.0)) else None
  }

  /** The first part of a round of the loop over members succeeds. */
  predicate KeyParsed(t: seq<byte>, p: nat, depth: nat, seen: seq<seq<byte>>, finite: seq<byte> -> bool)
    requires p <= |t|
  {
    && At(t, p) == QUOTE && ParseValue(t, p, depth, finite).Some?
    && Meaning(t, ParseValue(t, p, depth, finite).value).Some?
    && |Meaning(t, ParseValue(t, p, depth, finite).value).value| <= KEY_MAX
    && Meaning(t, ParseValue(t, p, depth, finite).value).value !in seen
  }

  /** The decoded keys of the members read so far. */
  predicate KeysRead(t: seq<byte>, done: Members, seen: seq<seq<byte>>)
  {
    |seen| == MembersCount(done) &&
    forall i :: 0 <= i < |seen| ==>
        KeyAt(done, i).Text? && Meaning(t, KeyAt(done, i)) == Some(seen[i]) && |seen[i]| <= KEY_MAX
  }

  /** A value that starts with a quote is a string in the text, one token long. */
  lemma KeyIsText(t: seq<byte>, p: nat, depth: nat, finite: seq<byte> -> bool)
    requires p <= |t| && At(t, p) == QUOTE
    ensures var r := ParseValue(t, p, depth, finite);
            r.Some? ==> r.value.Text? && r.value.start <= r.value.end < |t| && Chars(t[r.value.start..r.value.end])
                        && Size(r.value) == 1
  {
    hide ParseValue, Chars;
    if ParseValue(t, p, depth, finite).Some? {
      ValueSound(t, p, depth, finite);
      QuoteStays(t, p);
    }
  }

  lemma TextToken(s: seq<Token>, v: JsonGrammar.Value, x: nat)
    requires v.Text? && Stands(s, x, v)
    ensures x < |s| && s[x] == Token(v.start, v.end, x + 1, 0, KIND_TEXT)
  {
    assert s[x] == s[x..x + 1][0];
  }

  lemma KeysCounted(t: seq<byte>, done: Members, seen: seq<seq<byte>>)
    requires KeysRead(t, done, seen)
    ensures |seen| == MembersCount(done)
  {
  }

  lemma KeyInText(t: seq<byte>, done: Members, seen: seq<seq<byte>>, i: nat)
    requires KeysRead(t, done, seen) && i < |seen| == MembersCount(done)
    ensures var key := KeyAt(done, i);
            && key.Text? && key.start <= key.end <= |t| && Chars(t[key.start..key.end])
            && Decoded(t[key.start..key.end]) == Some(seen[i]) && |seen[i]| <= KEY_MAX
  {
    hide Chars, Decoded, KeyAt, MembersCount;
  }

  lemma FirstKeyIndex(members: Members, k: nat)
    ensures KeyIndex(members, 0, k) == k
  {
  }

  /** The branches of the parser function. */
  lemma ValueBranches(t: seq<byte>, p: nat, depth: nat, finite: seq<byte> -> bool)
    requires p <= |t|
    ensures depth > MAX_DEPTH || SkipSpace(t, p) == |t| ==> ParseValue(t, p, depth, finite).None?
    ensures var b := SkipSpace(t, p);
            depth <= MAX_DEPTH && b < |t| ==>
              ParseValue(t, p, depth, finite) ==
                if t[b] == OPEN_LIST then ParsedList(t, b, depth, finite)
                else if t[b] == OPEN_DICT then ParsedDict(t, b, depth, finite) else ParseScalar(t, b, finite)
  {
    hide SkipSpace, ParseItems, ParseMembers, ParseScalar;
  }

  lemma ScalarToken(s: seq<Token>, k: nat, v: JsonGrammar.Value)
    requires k < |s| && Tokens(v, k) == [s[k]]
    ensures Holds(s, k, Tokens(v, k)) && Size(v) == 1
  {
    assert s[k..k + 1] == [s[k]];
    assert |Tokens(v, k)| == Size(v);
  }

  lemma ScalarSize(t: seq<byte>, b: nat, finite: seq<byte> -> bool)
    requires b < |t|
    ensures ParseScalar(t, b, finite).Some? ==> Size(ParseScalar(t, b, finite).value) == 1
  {
  }

  /** The list branch of the parser function. */
  function ParsedList(t: seq<byte>, b: nat, depth: nat, finite: seq<byte> -> bool): (r: Option<JsonGrammar.Value>)
    requires b < |t|
    ensures r.Some? ==> r.value.List? && b < r.value.end <= |t|
  {
    var q := SkipSpace(t, b + 1);
    if At(t, q) == CLOSE_LIST then Some(List(b, q + 1, NoItem)) else
    var r := ParseItems(t, q, depth + 1, finite);
    if r.Some? then Some(List(b, r.value.1 + 1, r.value.0)) else None
  }

  /** Items already read, in front of what is still to be read. */
  function Prefixed(done: Items, r: Option<(Items, nat)>): Option<(Items, nat)>
  {
    if r.None? then None else Some((AppendItems(done, r.value.0), r.value.1))
  }

  lemma NoItems(k: nat, r: Option<(Items, nat)>)
    ensures ItemsSize(NoItem) == 0 && ItemsCount(NoItem) == 0 && ItemTokens(NoItem, k) == [] && r == Prefixed(NoItem, r)
  {
  }

  lemma PrefixedTwice(done: Items, v: JsonGrammar.Value, r: Option<(Items, nat)>)
    ensures Prefixed(done, Prefixed(Item(v, NoItem), r)) == Prefixed(AppendItems(done, Item(v, NoItem)), r)
  {
    if r.Some? {
      AppendItemsAssociative(done, Item(v, NoItem), r.value.0);
    }
  }

  /** A round of the loop over items, in terms of the function. */
  lemma ItemRound(t: seq<byte>, p: nat, depth: nat, finite: seq<byte> -> bool)
    requires p <= |t| && ParseValue(t, p, depth, finite).Some?
    ensures var v := ParseValue(t, p, depth, finite).value;
            var m := SkipSpace(t, Finish(v));
            && p < Finish(v) <= m <= |t|
            && (At(t, m) == CLOSE_LIST ==> ParseItems(t, p, depth, finite) == Some((Item(v, NoItem), m)))
            && (At(t, m) != CLOSE_LIST && At(t, m) != COMMA ==> ParseItems(t, p, depth, finite).None?)
            && (At(t, m) == COMMA ==>
                  m < |t| && ParseItems(t, p, depth, finite)
                      == Prefixed(Item(v, NoItem), ParseItems(t, SkipSpace(t, m + 1), depth, finite)))
  {
    hide ParseValue, SkipSpace;
    var v := ParseValue(t, p, depth, finite).value;
    var m := SkipSpace(t, Finish(v));
    if At(t, m) == COMMA {
      var r := ParseItems(t, SkipSpace(t, m + 1), depth, finite);
      if r.Some? {
        AppendOne(v, r.value.0);
      }
    }
  }

  lemma AppendOne(v: JsonGrammar.Value, items: Items)
    ensures AppendItems(Item(v, NoItem), items) == Item(v, items)
  {
    assert AppendItems(NoItem, items) == items;
  }

  /** If an item cannot be read, neither can the list. */
  lemma ItemsFail(t: seq<byte>, p: nat, depth: nat, finite: seq<byte> -> bool, done: Items, c: nat, k: nat)
    requires p <= |t| && c == k + 1 + ItemsSize(done)
    requires ParseValue(t, p, depth, finite).Some? ==> c + Size(ParseValue(t, p, depth, finite).value) > TOKENS
    ensures var r := Prefixed(done, ParseItems(t, p, depth, finite)); r.None? || k + 1 + ItemsSize(r.value.0) > TOKENS
  {
    hide ParseValue, SkipSpace, Size;
    var r := ParseItems(t, p, depth, finite);
    if r.Some? {
      AppendItemsTokens(done, r.value.0, 0);
    }
  }

  /** One more item behind those read. */
  lemma ItemPlaced(before: seq<Token>, after: seq<Token>, done: Items, v: JsonGrammar.Value, k: nat)
    requires |before| == |after| && Holds(before, k, ItemTokens(done, k))
               && Holds(after, k + ItemsSize(done), Tokens(v, k + ItemsSize(done)))
    requires forall i :: 0 <= i < k + ItemsSize(done) ==> after[i] == before[i]
    ensures var more := AppendItems(done, Item(v, NoItem));
            Holds(after, k, ItemTokens(more, k)) && ItemsSize(more) == ItemsSize(done) + Size(v)
                && ItemsCount(more) == ItemsCount(done) + 1
  {
    hide Tokens, Size, Holds;
    AppendItemsTokens(done, Item(v, NoItem), k);
    var c := k + ItemsSize(done);
    OneItem(v, c);
    HoldsBound(before, k, ItemTokens(done, k));
    HoldsKept(before, after, k, ItemTokens(done, k));
    HoldsJoin(after, k, ItemTokens(done, k), Tokens(v, c));
  }

  lemma OneItem(v: JsonGrammar.Value, k: nat)
    ensures ItemTokens(Item(v, NoItem), k) == Tokens(v, k) && ItemsSize(Item(v, NoItem)) == Size(v)
              && ItemsCount(Item(v, NoItem)) == 1
  {
    hide Tokens, Size;
    assert Tokens(v, k) + [] == Tokens(v, k);
  }

  lemma HoldsBound(s: seq<Token>, k: nat, a: seq<Token>)
    requires Holds(s, k, a)
    ensures k + |a| <= |s|
  {
  }

  lemma NumberParts(t: seq<byte>, p: nat)
    requires p <= |t| && IntegerEnd(t, p).Some?
    ensures IntegerEnd(t, p).value <= |t|
    ensures FractionEnd(t, IntegerEnd(t, p).value).Some? ==> FractionEnd(t, IntegerEnd(t, p).value).value <= |t|
  {
  }

  // ---------------------------------------------------------------- quoting and parsing

  /** A quoted text is a document: one string, which means the original. */
  lemma QuotedDocument(s: seq<byte>, finite: seq<byte> -> bool)
    requires 0 !in s && Utf8(s) && |s| <= DECODED_MAX
    ensures var q := Quoted(s);
            && 0 !in q && Document(q, JsonGrammar.Text(1, |q| - 1), finite) && q[1..|q| - 1] == QuotedInside(s)
            && Chars(QuotedInside(s)) && Decoded(QuotedInside(s)) == Some(s)
  {
    hide Decoded, Chars, Utf8, QuotedInside, Document;
    var q := Quoted(s);
    QuotedDecodes(s);
    QuotedUtf8(s);
    AsciiFirst(QUOTE, QuotedInside(s) + [QUOTE]);
    assert q == [QUOTE] + (QuotedInside(s) + [QUOTE]);
    assert q[1..|q| - 1] == QuotedInside(s);
    QuotedNoNul(s);
    StringDocument(q, s, finite);
  }

  /** A text that is one string is a document of one value. */
  lemma StringDocument(q: seq<byte>, s: seq<byte>, finite: seq<byte> -> bool)
    requires |q| >= 2 && q[0] == QUOTE && q[|q| - 1] == QUOTE && Utf8(q)
    requires Chars(q[1..|q| - 1]) && Decoded(q[1..|q| - 1]) == Some(s) && |s| <= DECODED_MAX
    ensures Document(q, JsonGrammar.Text(1, |q| - 1), finite)
  {
    hide Decoded, Chars, Utf8;
  }

  lemma {:induction false} QuotedNoNul(s: seq<byte>)
    requires 0 !in s
    ensures 0 !in QuotedInside(s)
  {
    if s != [] {
      QuotedNoNul(s[1..]);
      assert s[0] in s;
    }
  }

  /** What `rj_quote` writes, `rj_parse` reads as one string, and `rj_string` gives back. */
  method QuoteRoundTrip(s: seq<byte>, out: array<byte>, finite: seq<byte> -> bool, cap: nat)
    returns (r: Option<seq<byte>>)
    requires 0 !in s && Utf8(s) && |s| <= DECODED_MAX && |Quoted(s)| < out.Length && |s| < cap
    modifies out
    ensures r == Some(s)
  {
    hide Decoded, Chars, Utf8, Quoted, QuotedInside, Document, Fits, Spelled;
    var n := QuoteInto(s, out);
    QuotedDocument(s, finite);
    var j := new Json(out[..n], finite);
    ghost var v := JsonGrammar.Text(1, |j.text| - 1);
    var ok := j.Parse();
    ghost var w :| Document(j.text, w, finite) && j.count == Size(w) && Holds(j.t[..], 0, Tokens(w, 0));
    ParseExact(j.text, v, finite);
    ParseExact(j.text, w, finite);
    TextToken(j.t[..], v, 0);
    r := j.StringOf(0, cap);
  }
}
