/** What JSON text is (RFC 8259) within the limits of rj_json.c, and the values it spells, by position. */
module JsonGrammar {
  import opened Bytes
  import opened BootFormat
  import opened JsonText

  const MAX_DEPTH := 12
  const KEY_MAX := 127
  const DECODED_MAX := 16384
  const NUMBER_MAX := 128

  const COMMA: byte := ',' as int
  const COLON: byte := ':' as int
  const OPEN_LIST: byte := '[' as int
  const CLOSE_LIST: byte := ']' as int
  const OPEN_DICT: byte := '{' as int
  const CLOSE_DICT: byte := '}' as int

  /** A value and where it stands; a string stands between its quotes. */
  datatype Value =
    | Word(start: nat, end: nat, kind: byte)
    | Number(start: nat, end: nat)
    | Text(start: nat, end: nat)
    | List(start: nat, end: nat, items: Items)
    | Dict(start: nat, end: nat, members: Members)

  datatype Items = NoItem | Item(head: Value, tail: Items)

  datatype Members = NoMember | Member(key: Value, value: Value, rest: Members)

  /** Where the text of a value begins and finishes, quotes included. */
  function Begin(v: Value): int
  {
    if v.Text? then v.start - 1 else v.start
  }

  function Finish(v: Value): nat
  {
    if v.Text? then v.end + 1 else v.end
  }

  // ---------------------------------------------------------------- the grammar

  predicate IsSpace(c: byte)
  {
    c == 32 || c == 13 || c == 10 || c == 9
  }

  /** Nothing but white space stands from `p` to `q`. */
  predicate AllSpace(t: seq<byte>, p: int, q: int)
  {
    0 <= p <= q <= |t| && forall i :: p <= i < q ==> IsSpace(t[i])
  }

  predicate IsDecimal(c: byte)
  {
    '0' as int <= c <= '9' as int
  }

  /** One digit or more from `p` to `q`. */
  predicate DecimalRun(t: seq<byte>, p: nat, q: nat)
  {
    p < q <= |t| && forall i :: p <= i < q ==> IsDecimal(t[i])
  }

  /** Zero, or digits without a leading zero. */
  predicate IsInteger(t: seq<byte>, p: nat, q: nat)
  {
    DecimalRun(t, p, q) && (t[p] == '0' as int ==> q == p + 1)
  }

  /** Nothing, or a point and digits. */
  predicate IsFraction(t: seq<byte>, p: nat, q: nat)
  {
    p == q || (p < |t| && t[p] == '.' as int && DecimalRun(t, p + 1, q))
  }

  /** Nothing, or an exponent mark, a sign or none, and digits. */
  predicate IsExponent(t: seq<byte>, p: nat, q: nat)
  {
    p == q || (p + 1 < |t| && (t[p] == 'e' as int || t[p] == 'E' as int)
               && DecimalRun(t, if t[p + 1] == '+' as int || t[p + 1] == '-' as int then p + 2 else p + 1, q))
  }

  /** Section 6 of RFC 8259. */
  ghost predicate IsNumber(t: seq<byte>, p: nat, q: nat)
  {
    p < |t| &&
    exists i: nat, j: nat :: IsInteger(t, if t[p] == '-' as int then p + 1 else p, i) && IsFraction(t, i, j)
        && IsExponent(t, j, q)
  }

  const TRUE: seq<byte> := [0x74, 0x72, 0x75, 0x65]
  const FALSE: seq<byte> := [0x66, 0x61, 0x6C, 0x73, 0x65]
  const NULL: seq<byte> := [0x6E, 0x75, 0x6C, 0x6C]

  /** White space from `p`, then the character `c` at `m`. */
  predicate Separated(t: seq<byte>, p: int, m: nat, c: byte)
  {
    AllSpace(t, p, m) && m < |t| && t[m] == c
  }

  /** The value stands in the text at its positions (sections 2 to 7 of RFC 8259). */
  ghost predicate Spelled(t: seq<byte>, v: Value)
    decreases v
  {
    match v
    case Word(start, end, kind) =>
      start <= end <= |t| && (t[start..end] == TRUE || t[start..end] == FALSE || t[start..end] == NULL)
          && kind == t[start]
    case Number(start, end) => end <= |t| && IsNumber(t, start, end)
    case Text(start, end) =>
      1 <= start <= end < |t| && t[start - 1] == QUOTE && t[end] == QUOTE && Chars(t[start..end])
    case List(start, end, items) =>
      && start + 1 < end <= |t| && t[start] == OPEN_LIST && t[end - 1] == CLOSE_LIST
      && (if items.NoItem? then AllSpace(t, start + 1, end - 1) else SpelledItems(t, start + 1, end - 1, items))
    case Dict(start, end, members) =>
      && start + 1 < end <= |t| && t[start] == OPEN_DICT && t[end - 1] == CLOSE_DICT
      && (if members.NoMember? then AllSpace(t, start + 1, end - 1) else SpelledMembers(t, start + 1, end - 1, members))
  }

  /** Values from `p` to `q`, separated by commas. */
  ghost predicate SpelledItems(t: seq<byte>, p: nat, q: nat, items: Items)
    requires items.Item?
    decreases items
  {
    && AllSpace(t, p, Begin(items.head)) && Spelled(t, items.head)
    && (if items.tail.NoItem? then AllSpace(t, Finish(items.head), q)
        else exists m: nat :: Separated(t, Finish(items.head), m, COMMA) && SpelledItems(t, m + 1, q, items.tail))
  }

  /** Members from `p` to `q`, separated by commas; key and value are separated by a colon. */
  ghost predicate SpelledMembers(t: seq<byte>, p: nat, q: nat, members: Members)
    requires members.Member?
    decreases members
  {
    && AllSpace(t, p, Begin(members.key)) && members.key.Text? && Spelled(t, members.key)
    && (exists c: nat :: Separated(t, Finish(members.key), c, COLON) && AllSpace(t, c + 1, Begin(members.value)))
    && Spelled(t, members.value)
    && (if members.rest.NoMember? then AllSpace(t, Finish(members.value), q)
        else exists m: nat ::
               Separated(t, Finish(members.value), m, COMMA) && SpelledMembers(t, m + 1, q, members.rest))
  }

  // ---------------------------------------------------------------- the limits

  /** What a string value means. */
  function Meaning(t: seq<byte>, v: Value): Option<seq<byte>>
  {
    if v.Text? && v.start <= v.end <= |t| && Chars(t[v.start..v.end]) then Decoded(t[v.start..v.end]) else None
  }

  function KeyTexts(t: seq<byte>, members: Members): seq<Option<seq<byte>>>
  {
    if members.NoMember? then [] else [Meaning(t, members.key)] + KeyTexts(t, members.rest)
  }

  predicate Distinct<T(==)>(s: seq<T>)
  {
    forall i, j :: 0 <= i < j < |s| ==> s[i] != s[j]
  }

  /**
   * The limits: nesting, the sizes of decoded strings and keys, the length and finiteness of numbers, and
   * keys that differ. `finite` says whether the double of a number's text is finite.
   */
  predicate Fits(t: seq<byte>, v: Value, depth: nat, finite: seq<byte> -> bool)
  {
    depth <= MAX_DEPTH &&
    match v
    case Word(_, _, _) => true
    case Number(start, end) => start <= end <= |t| && end - start <= NUMBER_MAX && finite(t[start..end])
    case Text(_, _) => Meaning(t, v).Some? && |Meaning(t, v).value| <= DECODED_MAX
    case List(_, _, items) => ItemsFit(t, items, depth + 1, finite)
    case Dict(_, _, members) => MembersFit(t, members, depth + 1, finite) && Distinct(KeyTexts(t, members))
  }

  predicate ItemsFit(t: seq<byte>, items: Items, depth: nat, finite: seq<byte> -> bool)
  {
    items.NoItem? || (Fits(t, items.head, depth, finite) && ItemsFit(t, items.tail, depth, finite))
  }

  predicate MembersFit(t: seq<byte>, members: Members, depth: nat, finite: seq<byte> -> bool)
  {
    members.NoMember? ||
    (&& Fits(t, members.key, depth, finite) && Meaning(t, members.key).Some?
        && |Meaning(t, members.key).value| <= KEY_MAX
     && Fits(t, members.value, depth, finite) && MembersFit(t, members.rest, depth, finite))
  }

  /** The text is well-formed UTF-8 and spells `v`, within the limits, with white space around it. */
  ghost predicate Document(t: seq<byte>, v: Value, finite: seq<byte> -> bool)
  {
    Utf8(t) && AllSpace(t, 0, Begin(v)) && Spelled(t, v) && AllSpace(t, Finish(v), |t|) && Fits(t, v, 0, finite)
  }

  // ---------------------------------------------------------------- the parser as a function

  /** `space` */
  function SkipSpace(t: seq<byte>, p: nat): (q: nat)
    requires p <= |t|
    ensures p <= q <= |t| && AllSpace(t, p, q) && (q < |t| ==> !IsSpace(t[q]))
    decreases |t| - p
  {
    if p < |t| && IsSpace(t[p]) then SkipSpace(t, p + 1) else p
  }

  lemma {:induction false} SkipUnique(t: seq<byte>, p: nat, q: nat)
    requires AllSpace(t, p, q) && (q < |t| ==> !IsSpace(t[q]))
    ensures SkipSpace(t, p) == q
    decreases |t| - p
  {
    if p < q {
      SkipUnique(t, p + 1, q);
    }
  }

  function SkipDigits(t: seq<byte>, p: nat): (q: nat)
    requires p <= |t|
    ensures p <= q <= |t| && (forall i :: p <= i < q ==> IsDecimal(t[i])) && !IsDecimal(At(t, q))
    decreases |t| - p
  {
    if p < |t| && IsDecimal(t[p]) then SkipDigits(t, p + 1) else p
  }

  lemma {:induction false} DigitsUnique(t: seq<byte>, p: nat, q: nat)
    requires p <= q <= |t| && (forall i :: p <= i < q ==> IsDecimal(t[i])) && !IsDecimal(At(t, q))
    ensures SkipDigits(t, p) == q
    decreases |t| - p
  {
    if p < q {
      DigitsUnique(t, p + 1, q);
    }
  }

  /** Digits that must be there. */
  function SomeDigits(t: seq<byte>, p: nat): Option<nat>
    requires p <= |t|
  {
    if IsDecimal(At(t, p)) then Some(SkipDigits(t, p)) else None
  }

  function IntegerEnd(t: seq<byte>, p: nat): Option<nat>
    requires p <= |t|
  {
    if At(t, p) == '0' as int then Some(p + 1) else SomeDigits(t, p)
  }

  function FractionEnd(t: seq<byte>, p: nat): Option<nat>
    requires p <= |t|
  {
    if At(t, p) == '.' as int then SomeDigits(t, p + 1) else Some(p)
  }

  function ExponentEnd(t: seq<byte>, p: nat): Option<nat>
    requires p <= |t|
  {
    if At(t, p) == 'e' as int || At(t, p) == 'E' as int then
      SomeDigits(t, if At(t, p + 1) == '+' as int || At(t, p + 1) == '-' as int then p + 2 else p + 1)
    else Some(p)
  }

  /** The number branch of `parse_value`. */
  function NumberEnd(t: seq<byte>, p: nat): (e: Option<nat>)
    requires p < |t|
    ensures e.Some? ==> p < e.value <= |t|
  {
    var i := IntegerEnd(t, if t[p] == '-' as int then p + 1 else p);
    if i.None? then None else
    var j := FractionEnd(t, i.value);
    if j.None? then None else ExponentEnd(t, j.value)
  }

  /** What cannot follow a number without being part of it. */
  predicate Continues(c: byte)
  {
    IsDecimal(c) || c == '.' as int || c == 'e' as int || c == 'E' as int
  }

  lemma IntegerSound(t: seq<byte>, p: nat)
    requires p <= |t| && IntegerEnd(t, p).Some?
    ensures IsInteger(t, p, IntegerEnd(t, p).value)
  {
  }

  lemma FractionSound(t: seq<byte>, p: nat)
    requires p <= |t| && FractionEnd(t, p).Some?
    ensures IsFraction(t, p, FractionEnd(t, p).value)
  {
  }

  lemma ExponentSound(t: seq<byte>, p: nat)
    requires p <= |t| && ExponentEnd(t, p).Some?
    ensures IsExponent(t, p, ExponentEnd(t, p).value)
  {
  }

  lemma NumberSound(t: seq<byte>, p: nat)
    requires p < |t| && NumberEnd(t, p).Some?
    ensures IsNumber(t, p, NumberEnd(t, p).value)
  {
    var b := if t[p] == '-' as int then p + 1 else p;
    var i := IntegerEnd(t, b).value;
    var j := FractionEnd(t, i).value;
    var q := NumberEnd(t, p).value;
    hide IsInteger, IsFraction, IsExponent, SomeDigits;
    IntegerSound(t, b);
    FractionSound(t, i);
    ExponentSound(t, j);
    assert IsInteger(t, b, i) && IsFraction(t, i, j) && IsExponent(t, j, q);
  }

  lemma IntegerComplete(t: seq<byte>, p: nat, i: nat)
    requires IsInteger(t, p, i) && !IsDecimal(At(t, i))
    ensures IntegerEnd(t, p) == Some(i)
  {
    if t[p] != '0' as int {
      DigitsUnique(t, p, i);
    }
  }

  lemma FractionComplete(t: seq<byte>, i: nat, j: nat)
    requires i <= j <= |t| && IsFraction(t, i, j) && !IsDecimal(At(t, j)) && At(t, j) != '.' as int
    ensures FractionEnd(t, i) == Some(j)
  {
    if i < j {
      DigitsUnique(t, i + 1, j);
    }
  }

  lemma ExponentComplete(t: seq<byte>, j: nat, q: nat)
    requires j <= q <= |t| && IsExponent(t, j, q) && !Continues(At(t, q))
    ensures ExponentEnd(t, j) == Some(q)
  {
    if j < q {
      DigitsUnique(t, if t[j + 1] == '+' as int || t[j + 1] == '-' as int then j + 2 else j + 1, q);
    }
  }

  lemma NumberComplete(t: seq<byte>, p: nat, q: nat)
    requires IsNumber(t, p, q) && q <= |t| && !Continues(At(t, q))
    ensures NumberEnd(t, p) == Some(q)
  {
    hide IntegerEnd, FractionEnd, ExponentEnd, IsInteger;
    var b := if t[p] == '-' as int then p + 1 else p;
    var i: nat, j: nat :| IsInteger(t, b, i) && IsFraction(t, i, j) && IsExponent(t, j, q);
    IntegerEnds(t, b, i);
    IntegerComplete(t, b, i);
    FractionComplete(t, i, j);
    ExponentComplete(t, j, q);
  }

  lemma IntegerEnds(t: seq<byte>, p: nat, i: nat)
    requires IsInteger(t, p, i)
    ensures p < i <= |t|
  {
  }

  // ---------------------------------------------------------------- parsing values

  /** The word that a letter starts. */
  function WordFor(c: byte): seq<byte>
  {
    if c == TRUE[0] then TRUE else if c == FALSE[0] then FALSE else NULL
  }

  /** A value that does not contain others, at its first character. */
  function ParseScalar(t: seq<byte>, b: nat, finite: seq<byte> -> bool): (r: Option<Value>)
    requires b < |t|
    ensures r.Some? ==> b < Finish(r.value) <= |t|
  {
    var c := t[b];
    if c == QUOTE then
      var e := ScanFrom(t, b + 1);
      if e.None? then None else
      ScanSound(t, b + 1);
      var d := Decoded(t[b + 1..e.value]);
      if d.Some? && |d.value| <= DECODED_MAX then Some(Text(b + 1, e.value)) else None
    else if c == TRUE[0] || c == FALSE[0] || c == NULL[0] then
      var n := |WordFor(c)|;
      if b + n <= |t| && t[b..b + n] == WordFor(c) then Some(Word(b, b + n, c)) else None
    else
      var e := NumberEnd(t, b);
      if e.Some? && e.value - b <= NUMBER_MAX && finite(t[b..e.value]) then Some(Number(b, e.value)) else None
  }

  /** `parse_value` from `p`, apart from the number of tokens. */
  function ParseValue(t: seq<byte>, p: nat, depth: nat, finite: seq<byte> -> bool): (r: Option<Value>)
    requires p <= |t|
    ensures r.Some? ==> p < Finish(r.value) <= |t|
    decreases |t| - p, 0
  {
    if depth > MAX_DEPTH then None else
    var b := SkipSpace(t, p);
    if b == |t| then None
    else if t[b] == OPEN_LIST then
      var q := SkipSpace(t, b + 1);
      if At(t, q) == CLOSE_LIST then Some(List(b, q + 1, NoItem)) else
      var r := ParseItems(t, q, depth + 1, finite);
      if r.Some? then Some(List(b, r.value.1 + 1, r.value.0)) else None
    else if t[b] == OPEN_DICT then
      var q := SkipSpace(t, b + 1);
      if At(t, q) == CLOSE_DICT then Some(Dict(b, q + 1, NoMember)) else
      var r := ParseMembers(t, q, depth + 1, [], finite);
      if r.Some? then Some(Dict(b, r.value.1 + 1, r.value.0)) else None
    else ParseScalar(t, b, finite)
  }

  /** The loop over the items of a list: the items, and where the list closes. */
  function ParseItems(t: seq<byte>, p: nat, depth: nat, finite: seq<byte> -> bool): (r: Option<(Items, nat)>)
    requires p <= |t|
    ensures r.Some? ==> p < r.value.1 < |t| && r.value.0.Item?
    decreases |t| - p, 1
  {
    var v := ParseValue(t, p, depth, finite);
    if v.None? then None else
    var m := SkipSpace(t, Finish(v.value));
    if At(t, m) == CLOSE_LIST then Some((Item(v.value, NoItem), m))
    else if At(t, m) != COMMA then None
    else
      var r := ParseItems(t, SkipSpace(t, m + 1), depth, finite);
      if r.Some? then Some((Item(v.value, r.value.0), r.value.1)) else None
  }

  /** The loop over the members of an object, whose keys must differ from those in `seen`. */
  function ParseMembers(t: seq<byte>, p: nat, depth: nat, seen: seq<seq<byte>>, finite: seq<byte> -> bool):
      (r: Option<(Members, nat)>)
    requires p <= |t|
    ensures r.Some? ==> p < r.value.1 < |t| && r.value.0.Member?
    decreases |t| - p, 1
  {
    if At(t, p) != QUOTE then None else
    var key := ParseValue(t, p, depth, finite);
    if key.None? then None else
    var text := Meaning(t, key.value);
    if text.None? || |text.value| > KEY_MAX || text.value in seen then None else
    var c := SkipSpace(t, Finish(key.value));
    if At(t, c) != COLON then None else
    var v := ParseValue(t, c + 1, depth, finite);
    if v.None? then None else
    var m := SkipSpace(t, Finish(v.value));
    if At(t, m) == CLOSE_DICT then Some((Member(key.value, v.value, NoMember), m))
    else if At(t, m) != COMMA then None
    else
      var r := ParseMembers(t, SkipSpace(t, m + 1), depth, seen + [text.value], finite);
      if r.Some? then Some((Member(key.value, v.value, r.value.0), r.value.1)) else None
  }
}
