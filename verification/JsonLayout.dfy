/** The texts of a JSON value (RFC 8259 sections 2 to 7): every way to lay it out, with
    any white space between tokens, members in any order at every depth, any number
    literal and any escapes. These are exactly the texts the decoder accepts. */
module JsonLayout {
  import opened Text
  import opened Json

  /** One character of a string and the characters that spell it. */
  datatype Spelling = Spelling(c: char, text: string)

  datatype Layout =
    | Token(text: string)
    | Quoted(chars: seq<Spelling>)
    | EmptyArray(space: string)
    | EmptyObject(space: string)
    | Array(items: seq<Item>)
    | Object(members: seq<Member>)

  datatype Item = Item(before: string, layout: Layout, after: string)

  datatype Member = Member(
    before: string,
    name: seq<Spelling>,
    beforeColon: string,
    afterColon: string,
    layout: Layout,
    after: string)

  // ------------------------------------------------------------ texts

  predicate Blank(s: string) {
    forall i :: 0 <= i < |s| ==> IsSpace(s[i])
  }

  function ShortEscape(c: char): string {
    if c == '"' then "\\\""
    else if c == '\\' then "\\\\"
    else if c == '/' then "\\/"
    else if c == '\U{08}' then "\\b"
    else if c == '\U{0C}' then "\\f"
    else if c == '\n' then "\\n"
    else if c == '\r' then "\\r"
    else if c == '\t' then "\\t"
    else []
  }

  /** The code unit of a `\u` escape in digits of either case. */
  function EscapedUnit(s: string): Option<nat> {
    if |s| == 6 && s[0] == '\\' && s[1] == 'u' then Hex4(s[2..]) else None
  }

  predicate IsUnicodeEscape(s: string, u: int) {
    u >= 0 && EscapedUnit(s) == Some(u)
  }

  /** As itself, by a short escape, by a `\u` escape, or by a surrogate pair of them. */
  ghost predicate Spells(s: Spelling) {
    || (s.text == [s.c] && s.c != '"' && s.c != '\\' && s.c >= ' ')
    || (s.text != [] && s.text == ShortEscape(s.c))
    || IsUnicodeEscape(s.text, s.c as int)
    || (|s.text| == 12 && exists hi, lo ::
          IsHighSurrogate(hi) && IsLowSurrogate(lo)
          && IsUnicodeEscape(s.text[..6], hi) && IsUnicodeEscape(s.text[6..], lo)
          && s.c as int == 0x10000 + (hi - 0xD800) * 0x400 + (lo - 0xDC00))
  }

  /** A surrogate escape without its partner spells U+FFFD. */
  predicate LoneHigh(s: Spelling) {
    s.c == '\U{FFFD}' && EscapedUnit(s.text).Some? && IsHighSurrogate(EscapedUnit(s.text).value)
  }

  predicate LoneLow(s: Spelling) {
    s.c == '\U{FFFD}' && EscapedUnit(s.text).Some? && IsLowSurrogate(EscapedUnit(s.text).value)
  }

  ghost predicate Spelled(s: Spelling) {
    Spells(s) || LoneHigh(s) || LoneLow(s)
  }

  /** A lone high surrogate is not followed by a low one, with which it would be a pair. */
  ghost predicate SpelledWell(chars: seq<Spelling>) {
    (forall c :: c in chars ==> Spelled(c))
    && forall i :: 0 <= i < |chars| - 1 && LoneHigh(chars[i]) ==> !LoneLow(chars[i + 1])
  }

  predicate IsWord(text: string) {
    text == "true" || text == "false" || text == "null"
  }

  /** A layout whose nesting fits `room`. */
  ghost predicate WellFormed(f: Float64, room: nat, l: Layout)
    decreases l
  {
    match l
    case Token(text) => IsWord(text) || (IsNumberLiteral(text) && f(text).Some?)
    case Quoted(chars) => SpelledWell(chars)
    case EmptyArray(space) => room > 0 && Blank(space)
    case EmptyObject(space) => room > 0 && Blank(space)
    case Array(items) =>
      room > 0 && items != []
      && forall i :: i in items ==> Blank(i.before) && Blank(i.after) && WellFormed(f, room - 1, i.layout)
    case Object(members) =>
      room > 0 && members != []
      && forall m :: m in members ==>
           Blank(m.before) && Blank(m.beforeColon) && Blank(m.afterColon) && Blank(m.after)
           && SpelledWell(m.name)
           && WellFormed(f, room - 1, m.layout)
  }

  function SpelledThen(chars: seq<Spelling>, rest: string): string {
    if chars == [] then ['"'] + rest else chars[0].text + SpelledThen(chars[1..], rest)
  }

  /** The text of a layout with `rest` after it. */
  function WrittenThen(l: Layout, rest: string): string
    decreases l
  {
    match l
    case Token(text) => text + rest
    case Quoted(chars) => ['"'] + SpelledThen(chars, rest)
    case EmptyArray(space) => ['['] + (space + ([']'] + rest))
    case EmptyObject(space) => ['{'] + (space + (['}'] + rest))
    case Array(items) => ['['] + ItemsThen(items, rest)
    case Object(members) => ['{'] + MembersThen(members, rest)
  }

  function ItemsThen(items: seq<Item>, rest: string): string
    decreases items
  {
    if items == [] then rest
    else items[0].before + WrittenThen(items[0].layout, AfterItem(items, rest))
  }

  function AfterItem(items: seq<Item>, rest: string): string
    requires items != []
    decreases items, 0
  {
    items[0].after + if |items| == 1 then [']'] + rest else [','] + ItemsThen(items[1..], rest)
  }

  function MembersThen(members: seq<Member>, rest: string): string
    decreases members
  {
    if members == [] then rest
    else members[0].before + (['"'] + SpelledThen(members[0].name, AfterName(members, rest)))
  }

  function AfterName(members: seq<Member>, rest: string): string
    requires members != []
    decreases members, 1
  {
    members[0].beforeColon
    + ([':'] + (members[0].afterColon + WrittenThen(members[0].layout, AfterMember(members, rest))))
  }

  function AfterMember(members: seq<Member>, rest: string): string
    requires members != []
    decreases members, 0
  {
    members[0].after + if |members| == 1 then ['}'] + rest else [','] + MembersThen(members[1..], rest)
  }

  // ------------------------------------------------------------ meanings

  function Chars(chars: seq<Spelling>): (s: string)
    ensures |s| == |chars| && forall i :: 0 <= i < |chars| ==> s[i] == chars[i].c
  {
    seq(|chars|, i requires 0 <= i < |chars| => chars[i].c)
  }

  function TokenValue(f: Float64, text: string): Value {
    if text == "true" then Bool(true)
    else if text == "false" then Bool(false)
    else
      match f(text)
      case Some(literal) => if text == "null" then Null else Number(literal)
      case None => Null
  }

  /** The value laid out. */
  function Meaning(f: Float64, l: Layout): Value
    decreases l
  {
    match l
    case Token(text) => TokenValue(f, text)
    case Quoted(chars) => Str(Chars(chars))
    case EmptyArray(_) => Arr([])
    case EmptyObject(_) => Obj(map[])
    case Array(items) => Arr(ItemValues(f, items))
    case Object(members) => Obj(MemberValues(f, members, map[]))
  }

  function ItemValues(f: Float64, items: seq<Item>): (values: seq<Value>)
    ensures |values| == |items|
    decreases items
  {
    if items == [] then [] else [Meaning(f, items[0].layout)] + ItemValues(f, items[1..])
  }

  /** Of two members of one name the later stands. */
  function MemberValues(f: Float64, members: seq<Member>, acc: map<string, Value>): map<string, Value>
    decreases members
  {
    if members == [] then acc
    else MemberValues(f, members[1..], acc[Chars(members[0].name) := Meaning(f, members[0].layout)])
  }

  ghost predicate DistinctNames(members: seq<Member>) {
    forall i, j :: 0 <= i < j < |members| ==> Chars(members[i].name) != Chars(members[j].name)
  }

  lemma {:induction false} MembersByName(f: Float64, members: seq<Member>, acc: map<string, Value>)
    requires DistinctNames(members)
    ensures var m := MemberValues(f, members, acc);
            (forall i :: 0 <= i < |members| ==>
                 Chars(members[i].name) in m && m[Chars(members[i].name)] == Meaning(f, members[i].layout))
            && (forall k :: (forall i :: 0 <= i < |members| ==> Chars(members[i].name) != k) ==>
                  (k in m <==> k in acc) && (k in acc ==> m[k] == acc[k]))
    decreases |members|
  {
    if members != [] {
      var rest := members[1..];
      var name, acc' := Chars(members[0].name), acc[Chars(members[0].name) := Meaning(f, members[0].layout)];
      forall i, j | 0 <= i < j < |rest| ensures Chars(rest[i].name) != Chars(rest[j].name) {
        assert rest[i] == members[i + 1] && rest[j] == members[j + 1];
      }
      forall i | 0 <= i < |rest| ensures Chars(rest[i].name) != name {
        assert rest[i] == members[i + 1];
      }
      MembersByName(f, rest, acc');
      hide Meaning, Chars;
      var m := MemberValues(f, members, acc);
      assert m == MemberValues(f, rest, acc');
      assert name in acc' && name in m && m[name] == acc'[name];
      forall i | 0 <= i < |members|
        ensures Chars(members[i].name) in m && m[Chars(members[i].name)] == Meaning(f, members[i].layout)
      {
        if i > 0 { assert rest[i - 1] == members[i]; }
      }
      forall k | forall i :: 0 <= i < |members| ==> Chars(members[i].name) != k
        ensures (k in m <==> k in acc) && (k in acc ==> m[k] == acc[k])
      {
        forall i | 0 <= i < |rest| ensures Chars(rest[i].name) != k { assert rest[i] == members[i + 1]; }
      }
    }
  }

  /** Members in another order, their names distinct, mean the same object. */
  lemma MemberOrderIrrelevant(f: Float64, a: seq<Member>, b: seq<Member>)
    requires DistinctNames(a) && DistinctNames(b) && multiset(a) == multiset(b)
    ensures MemberValues(f, a, map[]) == MemberValues(f, b, map[])
  {
    MembersByName(f, a, map[]);
    MembersByName(f, b, map[]);
    forall m ensures m in a <==> m in b {
      assert m in multiset(a) <==> m in multiset(b);
    }
    hide MemberValues, Meaning, Chars;
    var x, y := MemberValues(f, a, map[]), MemberValues(f, b, map[]);
    forall k ensures (k in x <==> k in y) && (k in x ==> x[k] == y[k]) {
      NamedIn(a, b, k);
      if i :| 0 <= i < |a| && Chars(a[i].name) == k {
        assert a[i] in b;
        var j :| 0 <= j < |b| && b[j] == a[i];
      }
    }
  }

  lemma NamedIn(a: seq<Member>, b: seq<Member>, k: string)
    requires forall m :: m in a <==> m in b
    ensures (exists i :: 0 <= i < |a| && Chars(a[i].name) == k) <==> (exists j :: 0 <= j < |b| && Chars(b[j].name) == k)
  {
    if i :| 0 <= i < |a| && Chars(a[i].name) == k {
      assert a[i] in b;
      var j :| 0 <= j < |b| && b[j] == a[i];
    }
    if j :| 0 <= j < |b| && Chars(b[j].name) == k {
      assert b[j] in a;
      var i :| 0 <= i < |a| && a[i] == b[j];
    }
  }

  // ------------------------------------------------------------ the decoder reads them

  lemma Hex4Then(s: string, rest: string)
    requires |s| >= 4
    ensures Hex4(s + rest) == Hex4(s)
  {
  }

  lemma EscapeReads(c: char, text: string, rest: string)
    requires text != [] && text == ShortEscape(c)
    ensures DecodeChar(text + rest) == Ok(c, rest)
  {
    assert text == ['\\', text[1]];
    assert (text + rest)[1..] == [text[1]] + rest;
    assert ([text[1]] + rest)[1..] == rest;
  }

  lemma UnicodeParts(s: string, u: int, rest: string)
    requires IsUnicodeEscape(s, u)
    ensures (s + rest)[0] == '\\' && (s + rest)[1..] == ['u'] + (s[2..] + rest)
    ensures Hex4(s[2..] + rest) == Some(u) && (s[2..] + rest)[4..] == rest
    ensures DecodeChar(s + rest) == DecodeUnicode(s[2..] + rest)
  {
    Hex4Then(s[2..], rest);
    assert (s + rest)[1..] == ['u'] + (s[2..] + rest);
    assert (['u'] + (s[2..] + rest))[1..] == s[2..] + rest;
    hide Hex4, DecodeUnicode;
  }

  lemma PairReads(s: Spelling, hi: int, lo: int, rest: string)
    requires |s.text| == 12 && IsHighSurrogate(hi) && IsLowSurrogate(lo)
    requires IsUnicodeEscape(s.text[..6], hi) && IsUnicodeEscape(s.text[6..], lo)
    requires s.c as int == 0x10000 + (hi - 0xD800) * 0x400 + (lo - 0xDC00)
    ensures DecodeChar(s.text + rest) == Ok(s.c, rest)
  {
    var first, second := s.text[..6], s.text[6..];
    assert s.text + rest == first + (second + rest);
    UnicodeParts(first, hi, second + rest);
    UnicodeParts(second, lo, rest);
    var t := first[2..] + (second + rest);
    assert t[4..] == second + rest;
    assert t[4] == '\\' && t[5] == 'u' && t[6..] == second[2..] + rest && t[10..] == rest;
    hide Hex4;
  }

  lemma SpellsReads(s: Spelling, rest: string)
    requires Spells(s)
    ensures DecodeChar(s.text + rest) == Ok(s.c, rest)
    ensures s.text != [] && s.text[0] != '"'
  {
    if s.text == [s.c] && s.c != '"' && s.c != '\\' && s.c >= ' ' {
      PlainCharRoundTrip(s.c, rest);
    } else if s.text != [] && s.text == ShortEscape(s.c) {
      EscapeReads(s.c, s.text, rest);
    } else if IsUnicodeEscape(s.text, s.c as int) {
      UnicodeParts(s.text, s.c as int, rest);
    } else {
      var hi, lo :|
        IsHighSurrogate(hi) && IsLowSurrogate(lo)
        && IsUnicodeEscape(s.text[..6], hi) && IsUnicodeEscape(s.text[6..], lo)
        && s.c as int == 0x10000 + (hi - 0xD800) * 0x400 + (lo - 0xDC00);
      PairReads(s, hi, lo, rest);
    }
  }

  /** The text goes on with the escape of a low surrogate. */
  predicate StartsLow(s: string) {
    |s| >= 6 && EscapedUnit(s[..6]).Some? && IsLowSurrogate(EscapedUnit(s[..6]).value)
  }

  lemma UnitOf(s: string)
    requires |s| >= 6
    ensures s[0] == '\\' && s[1] == 'u' ==> EscapedUnit(s[..6]) == Hex4(s[2..])
    ensures !(s[0] == '\\' && s[1] == 'u') ==> EscapedUnit(s[..6]) == None
  {
    Hex4Then(s[..6][2..], s[6..]);
    assert s[2..] == s[..6][2..] + s[6..];
    assert s[..6][0] == s[0] && s[..6][1] == s[1];
    hide Hex4;
  }

  lemma LoneReads(s: Spelling, rest: string)
    requires LoneLow(s) || (LoneHigh(s) && !StartsLow(rest))
    ensures DecodeChar(s.text + rest) == Ok(s.c, rest)
    ensures s.text != [] && s.text[0] != '"'
  {
    var u := EscapedUnit(s.text).value;
    UnicodeParts(s.text, u, rest);
    var t := s.text[2..] + rest;
    assert t[4..] == rest && |t| == 4 + |rest|;
    if |rest| >= 6 {
      UnitOf(rest);
      assert t[4] == rest[0] && t[5] == rest[1] && t[6..] == rest[2..];
    }
    if |t| >= 6 && t[4] == '\\' && t[5] == 'u' && Hex4(t[6..]).Some? {
      assert t[6..] == rest[2..];
    }
    hide Hex4;
  }

  /** What follows a spelled character starts with a low surrogate only if that is what
      comes next. */
  lemma NextIsNotLow(chars: seq<Spelling>, rest: string)
    requires (forall c :: c in chars ==> Spelled(c)) && (chars != [] ==> !LoneLow(chars[0]))
    ensures !StartsLow(SpelledThen(chars, rest))
  {
    var text := SpelledThen(chars, rest);
    if chars == [] {
      assert text[0] == '"';
    } else {
      var s, more := chars[0], SpelledThen(chars[1..], rest);
      assert s in chars && text == s.text + more;
      hide SpelledThen;
      if |text| >= 6 {
        UnitOf(text);
        FirstUnit(s, more);
      }
    }
  }

  lemma FirstUnit(s: Spelling, more: string)
    requires Spelled(s) && !LoneLow(s) && |s.text + more| >= 6
    ensures EscapedUnit((s.text + more)[..6]).Some? ==> !IsLowSurrogate(EscapedUnit((s.text + more)[..6]).value)
  {
    var text := s.text + more;
    if |s.text| >= 6 {
      assert text[..6] == s.text[..6];
      if |s.text| == 6 { assert s.text[..6] == s.text; }
    } else {
      UnitOf(text);
      if s.text == [s.c] && s.c != '\\' {
        assert text[0] == s.c;
      } else {
        assert s.text == ShortEscape(s.c) && text[1] == s.text[1] && s.text[1] != 'u';
      }
    }
    hide Hex4;
  }

  lemma {:induction false} SpelledReads(chars: seq<Spelling>, rest: string)
    requires SpelledWell(chars)
    ensures ParseString(SpelledThen(chars, rest)) == Ok(Chars(chars), rest)
    decreases |chars|
  {
    if chars == [] {
      assert (['"'] + rest)[1..] == rest;
    } else {
      var s, more := chars[0], chars[1..];
      assert s in chars && forall c :: c in more ==> c in chars;
      assert SpelledWell(more) && Spelled(s);
      var after := SpelledThen(more, rest);
      assert SpelledThen(chars, rest) == s.text + after;
      assert Chars(chars) == [s.c] + Chars(more);
      SpelledReads(more, rest);
      if Spells(s) {
        SpellsReads(s, after);
      } else {
        if LoneHigh(s) { NextIsNotLow(more, rest); }
        LoneReads(s, after);
      }
      hide *;
      assert (s.text + after)[0] == s.text[0];
      ParseStringStep(s.text + after, s.c, after, Chars(more), rest);
    }
  }

  lemma BlankSkips(space: string, text: string)
    requires Blank(space)
    ensures SkipSpace(space + text) == SkipSpace(text)
  {
    if space == [] {
      assert space + text == text;
    } else {
      assert space[0] == space[0] && IsSpace(space[0]);
      assert space + text == [space[0]] + (space[1..] + text);
      assert Blank(space[1..]);
      BlankSkips(space[1..], text);
      SkipStep(space[0], space[1..] + text);
    }
  }

  /** White space, then a punctuation character. */
  lemma Punctuated(space: string, c: char, rest: string)
    requires Blank(space) && c in ",:]}"
    ensures SkipSpace(space + ([c] + rest)) == [c] + rest
    ensures Delimited(space + ([c] + rest))
  {
    SpaceThen(space, c, rest);
    if space != [] {
      assert IsSpace(space[0]) && (space + ([c] + rest))[0] == space[0];
    } else {
      assert space + ([c] + rest) == [c] + rest;
    }
  }

  lemma SpaceBefore(f: Float64, room: nat, a: string, b: string, elems: seq<Value>, members: map<string, Value>)
    requires SkipSpace(a) == SkipSpace(b)
    ensures ParseValue(f, room, a) == ParseValue(f, room, b)
    ensures ParseElems(f, room, a, elems) == ParseElems(f, room, b, elems)
    ensures ParseMembers(f, room, a, members) == ParseMembers(f, room, b, members)
  {
  }

  lemma TokenReads(f: Float64, room: nat, text: string, rest: string)
    requires IsWord(text) || (IsNumberLiteral(text) && f(text).Some?)
    requires Delimited(rest)
    ensures ParseValue(f, room, text + rest) == Ok(TokenValue(f, text), rest)
  {
    if IsWord(text) {
      ParseWord(f, room, text, rest);
    } else {
      NumberChars(text);
      NumberLengthIs(text, rest);
      assert (text + rest)[..|text|] == text && (text + rest)[|text|..] == rest;
      assert (text + rest)[0] == text[0];
      ParseNumberValue(f, room, text + rest);
    }
  }

  /** A layout starts with a character that opens a value. */
  lemma Starts(f: Float64, room: nat, l: Layout, rest: string)
    requires WellFormed(f, room, l)
    ensures var text := WrittenThen(l, rest);
            text != [] && SkipSpace(text) == text && text[0] != ']' && text[0] != '}'
  {
    match l
    case Token(text) =>
      if !IsWord(text) { NumberChars(text); }
      assert (text + rest)[0] == text[0];
    case _ =>
  }

  lemma QuotedReads(f: Float64, room: nat, chars: seq<Spelling>, rest: string)
    requires SpelledWell(chars)
    ensures ParseValue(f, room, ['"'] + SpelledThen(chars, rest)) == Ok(Str(Chars(chars)), rest)
  {
    SpelledReads(chars, rest);
    SkipStep('"', SpelledThen(chars, rest));
    assert (['"'] + SpelledThen(chars, rest))[1..] == SpelledThen(chars, rest);
    hide SpelledThen, ParseString, SpelledWell;
  }

  lemma OpenReads(f: Float64, room: nat, open: char, body: string)
    requires room > 0 && (open == '[' || open == '{')
    ensures ParseValue(f, room, [open] + body)
         == var t := SkipSpace(body);
            if open == '[' then
              if t != [] && t[0] == ']' then Ok(Arr([]), t[1..]) else ParseElems(f, room - 1, t, [])
            else
              if t != [] && t[0] == '}' then Ok(Obj(map[]), t[1..]) else ParseMembers(f, room - 1, t, map[])
  {
    SkipStep(open, body);
    assert ([open] + body)[1..] == body;
    hide SkipSpace;
  }

  lemma ElemStep(f: Float64, room: nat, text: string, v: Value, after: string, c: char, more: string, acc: seq<Value>)
    requires ParseValue(f, room, text) == Ok(v, after) && SkipSpace(after) == [c] + more
    requires c == ']' || c == ','
    ensures ParseElems(f, room, text, acc)
         == if c == ']' then Ok(Arr(acc + [v]), more) else ParseElems(f, room, more, acc + [v])
  {
    assert ([c] + more)[1..] == more;
  }

  lemma FieldStep(f: Float64, room: nat, text: string, body: string, name: string, tail: string, valueText: string,
                  v: Value, after: string, c: char, more: string, acc: map<string, Value>)
    requires SkipSpace(text) == ['"'] + body && ParseString(body) == Ok(name, tail)
    requires SkipSpace(tail) == [':'] + valueText
    requires ParseValue(f, room, valueText) == Ok(v, after) && SkipSpace(after) == [c] + more
    requires c == '}' || c == ','
    ensures ParseMembers(f, room, text, acc)
         == if c == '}' then Ok(Obj(acc[name := v]), more) else ParseMembers(f, room, more, acc[name := v])
  {
    assert (['"'] + body)[1..] == body && ([':'] + valueText)[1..] == valueText && ([c] + more)[1..] == more;
  }

  /** Every layout of a value reads as that value. */
  lemma {:induction false} LayoutReads(f: Float64, room: nat, l: Layout, rest: string)
    requires WellFormed(f, room, l) && Delimited(rest)
    ensures ParseValue(f, room, WrittenThen(l, rest)) == Ok(Meaning(f, l), rest)
    decreases l
  {
    match l
    case Token(text) => TokenReads(f, room, text, rest);
    case Quoted(chars) => QuotedReads(f, room, chars, rest);
    case EmptyArray(space) => EmptyReads(f, room, '[', space, ']', rest);
    case EmptyObject(space) => EmptyReads(f, room, '{', space, '}', rest);
    case Array(items) =>
      assert forall i :: i in items ==> ItemOk(f, room - 1, i);
      ArrayReads(f, room, items, rest);
    case Object(members) =>
      assert forall m :: m in members ==> MemberOk(f, room - 1, m);
      ObjectReads(f, room, members, rest);
  }

  ghost predicate ItemOk(f: Float64, room: nat, i: Item) {
    Blank(i.before) && Blank(i.after) && WellFormed(f, room, i.layout)
  }

  ghost predicate MemberOk(f: Float64, room: nat, m: Member) {
    Blank(m.before) && Blank(m.beforeColon) && Blank(m.afterColon) && Blank(m.after)
    && SpelledWell(m.name) && WellFormed(f, room, m.layout)
  }

  lemma EmptyReads(f: Float64, room: nat, open: char, space: string, close: char, rest: string)
    requires room > 0 && Blank(space) && ((open == '[' && close == ']') || (open == '{' && close == '}'))
    ensures ParseValue(f, room, [open] + (space + ([close] + rest)))
         == Ok(if open == '[' then Arr([]) else Obj(map[]), rest)
  {
    OpenReads(f, room, open, space + ([close] + rest));
    Punctuated(space, close, rest);
    assert ([close] + rest)[1..] == rest;
  }

  lemma {:induction false} ArrayReads(f: Float64, room: nat, items: seq<Item>, rest: string)
    requires room > 0 && items != [] && Delimited(rest) && forall i :: i in items ==> ItemOk(f, room - 1, i)
    ensures ParseValue(f, room, ['['] + ItemsThen(items, rest)) == Ok(Arr(ItemValues(f, items)), rest)
    decreases items, 1
  {
    var it, body := items[0], ItemsThen(items, rest);
    assert it in items && ItemOk(f, room - 1, it);
    Starts(f, room - 1, it.layout, AfterItem(items, rest));
    BlankSkips(it.before, WrittenThen(it.layout, AfterItem(items, rest)));
    OpenReads(f, room, '[', body);
    SkipTwice(body);
    SpaceBefore(f, room - 1, SkipSpace(body), body, [], map[]);
    ItemsRead(f, room - 1, items, [], rest);
    assert [] + ItemValues(f, items) == ItemValues(f, items);
    hide ParseValue, ParseElems, WrittenThen, AfterItem, ItemValues, ItemOk;
  }

  lemma {:induction false} ItemsRead(f: Float64, room: nat, items: seq<Item>, acc: seq<Value>, rest: string)
    requires items != [] && forall i :: i in items ==> ItemOk(f, room, i)
    ensures ParseElems(f, room, ItemsThen(items, rest), acc) == Ok(Arr(acc + ItemValues(f, items)), rest)
    decreases items, 0
  {
    var it, more := items[0], items[1..];
    assert it in items && ItemOk(f, room, it) && forall i :: i in more ==> i in items;
    ItemsFacts(f, items, acc, rest);
    var last := |items| == 1;
    var c, tail := if last then ']' else ',', if last then rest else ItemsThen(more, rest);
    assert Blank(it.before) && Blank(it.after) && WellFormed(f, room, it.layout);
    hide *;
    Punctuated(it.after, c, tail);
    var after := it.after + ([c] + tail);
    var text := WrittenThen(it.layout, after);
    LayoutReads(f, room, it.layout, after);
    BlankSkips(it.before, text);
    SpaceBefore(f, room, it.before + text, text, acc, map[]);
    ElemStep(f, room, it.before + text, Meaning(f, it.layout), after, c, tail, acc);
    if !last { ItemsRead(f, room, more, acc + [Meaning(f, it.layout)], rest); }
  }

  lemma ItemsFacts(f: Float64, items: seq<Item>, acc: seq<Value>, rest: string)
    requires items != []
    ensures ItemsThen(items, rest)
         == items[0].before
            + WrittenThen(items[0].layout,
                          items[0].after + if |items| == 1 then [']'] + rest else [','] + ItemsThen(items[1..], rest))
    ensures acc + ItemValues(f, items)
         == if |items| == 1 then acc + [Meaning(f, items[0].layout)]
            else acc + [Meaning(f, items[0].layout)] + ItemValues(f, items[1..])
  {
    var v, values := Meaning(f, items[0].layout), ItemValues(f, items[1..]);
    assert ItemValues(f, items) == [v] + values;
    hide *;
    Assoc(acc, [v], values);
    if |items| == 1 {
      assert |values| == 0;
      NothingAdded(acc + [v]);
    }
  }

  lemma {:induction false} ObjectReads(f: Float64, room: nat, members: seq<Member>, rest: string)
    requires room > 0 && members != [] && forall m :: m in members ==> MemberOk(f, room - 1, m)
    ensures ParseValue(f, room, ['{'] + MembersThen(members, rest)) == Ok(Obj(MemberValues(f, members, map[])), rest)
    decreases members, 1
  {
    var m, body := members[0], MembersThen(members, rest);
    assert m in members && MemberOk(f, room - 1, m) && Blank(m.before);
    var quoted := SpelledThen(m.name, AfterName(members, rest));
    assert body == m.before + (['"'] + quoted);
    hide *;
    BlankSkips(m.before, ['"'] + quoted);
    QuoteIsNotSpace(quoted);
    OpenReads(f, room, '{', body);
    SkipTwice(body);
    SpaceBefore(f, room - 1, SkipSpace(body), body, [], map[]);
    MembersRead(f, room - 1, members, map[], rest);
  }

  lemma {:induction false} MembersRead(f: Float64, room: nat, members: seq<Member>, acc: map<string, Value>,
                                       rest: string)
    requires members != [] && forall m :: m in members ==> MemberOk(f, room, m)
    ensures ParseMembers(f, room, MembersThen(members, rest), acc) == Ok(Obj(MemberValues(f, members, acc)), rest)
    decreases members, 0
  {
    var m, more := members[0], members[1..];
    assert m in members && MemberOk(f, room, m) && forall x :: x in more ==> x in members;
    MembersFacts(f, members, acc, rest);
    var last := |members| == 1;
    var c, tail := if last then '}' else ',', if last then rest else MembersThen(more, rest);
    assert Blank(m.before) && Blank(m.beforeColon) && Blank(m.afterColon) && Blank(m.after);
    assert SpelledWell(m.name) && WellFormed(f, room, m.layout);
    hide *;
    Punctuated(m.after, c, tail);
    var after := m.after + ([c] + tail);
    var valueText := WrittenThen(m.layout, after);
    LayoutReads(f, room, m.layout, after);
    BlankSkips(m.afterColon, valueText);
    SpaceBefore(f, room, m.afterColon + valueText, valueText, [], acc);
    var afterName := m.beforeColon + ([':'] + (m.afterColon + valueText));
    Punctuated(m.beforeColon, ':', m.afterColon + valueText);
    var body := SpelledThen(m.name, afterName);
    SpelledReads(m.name, afterName);
    BlankSkips(m.before, ['"'] + body);
    QuoteIsNotSpace(body);
    FieldStep(f, room, m.before + (['"'] + body), body, Chars(m.name), afterName, m.afterColon + valueText,
              Meaning(f, m.layout), after, c, tail, acc);
    if !last { MembersRead(f, room, more, acc[Chars(m.name) := Meaning(f, m.layout)], rest); }
  }

  lemma QuoteIsNotSpace(body: string)
    ensures SkipSpace(['"'] + body) == ['"'] + body
  {
  }

  lemma MembersFacts(f: Float64, members: seq<Member>, acc: map<string, Value>, rest: string)
    requires members != []
    ensures var m := members[0];
            MembersThen(members, rest)
            == m.before
               + (['"'] + SpelledThen(m.name,
                    m.beforeColon + ([':'] + (m.afterColon
                      + WrittenThen(m.layout,
                          m.after + if |members| == 1 then ['}'] + rest
                               else [','] + MembersThen(members[1..], rest))))))
    ensures var acc' := acc[Chars(members[0].name) := Meaning(f, members[0].layout)];
            MemberValues(f, members, acc) == if |members| == 1 then acc' else MemberValues(f, members[1..], acc')
  {
    assert AfterMember(members, rest)
        == members[0].after + if |members| == 1 then ['}'] + rest else [','] + MembersThen(members[1..], rest);
    hide Meaning, WrittenThen, SpelledThen, Chars;
  }

  /** A whole document, white space around it. */
  lemma DocumentReads(f: Float64, before: string, l: Layout, after: string)
    requires WellFormed(f, MAX_NESTING, l) && Blank(before) && Blank(after)
    ensures Parse(f, before + WrittenThen(l, after)) == Some(Meaning(f, l))
  {
    assert Delimited(after) by {
      if after != [] { assert IsSpace(after[0]); }
    }
    LayoutReads(f, MAX_NESTING, l, after);
    BlankSkips(before, WrittenThen(l, after));
    SpaceBefore(f, MAX_NESTING, before + WrittenThen(l, after), WrittenThen(l, after), [], map[]);
    BlankSkips(after, []);
    assert after + [] == after;
    hide ParseValue, WrittenThen, Meaning, WellFormed;
  }

  // ------------------------------------------------------------ every accepted text is laid out

  lemma {:induction false} SkipParts(text: string) returns (space: string)
    ensures Blank(space) && text == space + SkipSpace(text)
    decreases |text|
  {
    if text != [] && IsSpace(text[0]) {
      var more := SkipParts(text[1..]);
      space := [text[0]] + more;
      Uncons(text, []);
      Assoc([text[0]], more, SkipSpace(text[1..]));
    } else {
      space := [];
    }
  }

  /** How the decoder's next character is spelled. */
  ghost predicate ReadsAs(s: string, sp: Spelling, c: char, rest: string) {
    s == sp.text + rest && sp.c == c
    && (Spells(sp) || LoneLow(sp) || (LoneHigh(sp) && !StartsLow(rest)))
  }

  lemma UnicodeSpelling(s: string) returns (sp: Spelling)
    requires |s| >= 2 && s[0] == '\\' && s[1] == 'u' && DecodeUnicode(s[2..]).Ok?
    ensures ReadsAs(s, sp, DecodeUnicode(s[2..]).value, DecodeUnicode(s[2..]).rest)
  {
    var t := s[2..];
    var Ok(c, rest) := DecodeUnicode(t);
    UnitOf(s);
    if rest == t[4..] {
      sp := Spelling(c, s[..6]);
      assert s == s[..6] + s[6..] && t[4..] == s[6..];
      assert EscapedUnit(sp.text) == Hex4(t);
      if IsHighSurrogate(Hex4(t).value) && |rest| >= 6 {
        UnitOf(rest);
        assert t[4] == rest[0] && t[5] == rest[1] && t[6..] == rest[2..];
      }
    } else {
      sp := Spelling(c, s[..12]);
      assert s == s[..12] + s[12..] && t[10..] == s[12..];
      UnitOf(s[6..]);
      assert s[6..][2..] == t[6..] && s[6..][0] == t[4] && s[6..][1] == t[5];
      assert s[..12][..6] == s[..6] && s[..12][6..] == s[6..][..6];
      var hi, lo := Hex4(t).value, Hex4(t[6..]).value;
      assert IsUnicodeEscape(sp.text[..6], hi) && IsUnicodeEscape(sp.text[6..], lo);
    }
    hide Hex4;
  }

  lemma CharSpelling(s: string) returns (sp: Spelling)
    requires s != [] && s[0] != '"' && DecodeChar(s).Ok?
    ensures ReadsAs(s, sp, DecodeChar(s).value, DecodeChar(s).rest)
  {
    if s[0] != '\\' {
      sp := Spelling(s[0], [s[0]]);
    } else if s[1] == 'u' {
      assert s[1..][1..] == s[2..];
      sp := UnicodeSpelling(s);
    } else {
      sp := Spelling(DecodeChar(s).value, s[..2]);
      assert s[1..][1..] == s[2..] && s == s[..2] + s[2..] && s[..2] == ['\\', s[1]];
    }
  }

  lemma {:induction false} StringSpelling(s: string) returns (chars: seq<Spelling>)
    requires ParseString(s).Ok?
    ensures SpelledWell(chars) && Chars(chars) == ParseString(s).value
    ensures s == SpelledThen(chars, ParseString(s).rest)
    decreases |s|
  {
    if s[0] == '"' {
      chars := [];
      assert s == ['"'] + s[1..];
    } else {
      var Ok(c, after) := DecodeChar(s);
      var sp := CharSpelling(s);
      var more := StringSpelling(after);
      chars := [sp] + more;
      assert chars[1..] == more;
      assert Chars(chars) == [c] + Chars(more);
      if LoneHigh(sp) && !Spells(sp) && more != [] && LoneLow(more[0]) {
        LowComesNext(more, ParseString(after).rest);
        assert false;
      }
      if Spells(sp) { SpellsIsNotLone(sp); }
      JoinWell(sp, more);
    }
  }

  lemma SpellsIsNotLone(s: Spelling)
    requires Spells(s)
    ensures !LoneHigh(s)
  {
    hide Hex4;
  }

  lemma LowComesNext(chars: seq<Spelling>, rest: string)
    requires chars != [] && LoneLow(chars[0])
    ensures StartsLow(SpelledThen(chars, rest))
  {
    var s, more := chars[0], SpelledThen(chars[1..], rest);
    assert SpelledThen(chars, rest) == s.text + more;
    assert (s.text + more)[..6] == s.text;
  }

  lemma JoinWell(s: Spelling, more: seq<Spelling>)
    requires Spelled(s) && SpelledWell(more) && (more != [] && LoneHigh(s) ==> !LoneLow(more[0]))
    ensures SpelledWell([s] + more)
  {
    var chars := [s] + more;
    hide Spelled, LoneHigh, LoneLow;
    forall i | 0 <= i < |chars| - 1 && LoneHigh(chars[i]) ensures !LoneLow(chars[i + 1]) {
      if i > 0 { assert chars[i] == more[i - 1] && chars[i + 1] == more[i]; }
    }
  }

  lemma NumberLayout(f: Float64, room: nat, s: string) returns (l: Layout)
    requires s != [] && IsNumberChar(s[0]) && ParseNumber(f, s).Ok?
    ensures WellFormed(f, room, l) && Meaning(f, l) == ParseNumber(f, s).value
    ensures s == WrittenThen(l, ParseNumber(f, s).rest)
  {
    var n := NumberLength(s);
    l := Token(s[..n]);
    NumberChars(s[..n]);
    assert s == s[..n] + s[n..];
    NotAWord(s[..n]);
    hide IsNumberLiteral, NumberLength, IsNumberChar;
  }

  lemma NotAWord(text: string)
    requires text != [] && (text[0] == '-' || IsDigit(text[0]))
    ensures !IsWord(text)
  {
  }

  lemma WordLayout(f: Float64, room: nat, s: string, word: string) returns (l: Layout)
    requires IsWord(word) && HasPrefix(s, word)
    ensures WellFormed(f, room, l) && Meaning(f, l) == (if word == "null" then Null else Bool(word == "true"))
    ensures s == WrittenThen(l, s[|word|..])
  {
    l := Token(word);
    assert s == word + s[|word|..];
    assert "null" != "true" && "null" != "false" && "true" != "false";
  }

  function IndentMembers(space: string, members: seq<Member>): seq<Member>
    requires members != []
  {
    [members[0].(before := space + members[0].before)] + members[1..]
  }

  lemma MembersIndented(f: Float64, room: nat, space: string, members: seq<Member>, rest: string)
    requires Blank(space) && members != [] && forall m :: m in members ==> MemberOk(f, room, m)
    ensures var indented := IndentMembers(space, members);
            (forall m :: m in indented ==> MemberOk(f, room, m))
            && MembersThen(indented, rest) == space + MembersThen(members, rest)
            && MemberValues(f, indented, map[]) == MemberValues(f, members, map[])
  {
    var indented := IndentMembers(space, members);
    assert members[0] in members && MemberOk(f, room, members[0]);
    assert indented[1..] == members[1..];
    forall m | m in indented ensures MemberOk(f, room, m) {
      if m in members[1..] { assert m in members; } else { assert m == indented[0]; }
    }
    assert AfterName(indented, rest) == AfterName(members, rest) by {
      assert AfterMember(indented, rest) == AfterMember(members, rest);
    }
    Assoc(space, members[0].before, ['"'] + SpelledThen(members[0].name, AfterName(members, rest)));
    hide MemberOk, SpelledThen, AfterName, Meaning, Chars;
  }

  function IndentItems(space: string, items: seq<Item>): seq<Item>
    requires items != []
  {
    [items[0].(before := space + items[0].before)] + items[1..]
  }

  lemma ItemsIndented(f: Float64, room: nat, space: string, items: seq<Item>, rest: string)
    requires Blank(space) && items != [] && forall i :: i in items ==> ItemOk(f, room, i)
    ensures var indented := IndentItems(space, items);
            (forall i :: i in indented ==> ItemOk(f, room, i))
            && ItemsThen(indented, rest) == space + ItemsThen(items, rest)
            && ItemValues(f, indented) == ItemValues(f, items)
  {
    var indented := IndentItems(space, items);
    assert items[0] in items && ItemOk(f, room, items[0]);
    assert indented[1..] == items[1..];
    forall i | i in indented ensures ItemOk(f, room, i) {
      if i in items[1..] { assert i in items; } else { assert i == indented[0]; }
    }
    assert AfterItem(indented, rest) == AfterItem(items, rest);
    Assoc(space, items[0].before, WrittenThen(items[0].layout, AfterItem(items, rest)));
    hide ItemOk, WrittenThen, AfterItem, Meaning;
  }

  lemma ObjectOk(f: Float64, room: nat, members: seq<Member>)
    requires room > 0 && members != [] && forall m :: m in members ==> MemberOk(f, room - 1, m)
    ensures WellFormed(f, room, Object(members))
  {
  }

  lemma ArrayOk(f: Float64, room: nat, items: seq<Item>)
    requires room > 0 && items != [] && forall i :: i in items ==> ItemOk(f, room - 1, i)
    ensures WellFormed(f, room, Array(items))
  {
  }

  /** What an accepted value's text is, white space before it aside. */
  ghost predicate LaidOut(f: Float64, room: nat, text: string, l: Layout, v: Value, rest: string) {
    WellFormed(f, room, l) && Meaning(f, l) == v && text == WrittenThen(l, rest)
  }

  lemma {:induction false} ValueLayout(f: Float64, room: nat, text: string) returns (space: string, l: Layout)
    requires ParseValue(f, room, text).Ok?
    ensures Blank(space) && text == space + SkipSpace(text)
    ensures LaidOut(f, room, SkipSpace(text), l, ParseValue(f, room, text).value, ParseValue(f, room, text).rest)
    decreases |text|, 1
  {
    space := SkipParts(text);
    var s := SkipSpace(text);
    if s[0] == '{' {
      l := ObjectLayout(f, room, text, s);
    } else if s[0] == '[' {
      l := ArrayLayout(f, room, text, s);
    } else if s[0] == '"' {
      var chars := StringSpelling(s[1..]);
      l := Quoted(chars);
      assert s == ['"'] + s[1..];
    } else if IsNumberChar(s[0]) {
      l := NumberLayout(f, room, s);
    } else if HasPrefix(s, "true") {
      l := WordLayout(f, room, s, "true");
    } else if HasPrefix(s, "false") {
      l := WordLayout(f, room, s, "false");
    } else {
      l := WordLayout(f, room, s, "null");
    }
  }

  lemma {:induction false} ObjectLayout(f: Float64, room: nat, text: string, s: string) returns (l: Layout)
    requires s == SkipSpace(text) && s != [] && s[0] == '{' && ParseValue(f, room, text).Ok?
    ensures LaidOut(f, room, s, l, ParseValue(f, room, text).value, ParseValue(f, room, text).rest)
    decreases |text|, 0
  {
    var t := SkipSpace(s[1..]);
    var inner := SkipParts(s[1..]);
    assert s == ['{'] + s[1..];
    if t != [] && t[0] == '}' {
      l := EmptyObject(inner);
      assert t == ['}'] + t[1..];
    } else {
      hide ParseMembers, SkipSpace, MembersThen, MemberValues, Blank;
      var members := MembersLayout(f, room - 1, t, map[]);
      var rest := ParseMembers(f, room - 1, t, map[]).rest;
      MembersIndented(f, room - 1, inner, members, rest);
      ObjectOk(f, room, IndentMembers(inner, members));
      l := Object(IndentMembers(inner, members));
    }
  }

  lemma {:induction false} ArrayLayout(f: Float64, room: nat, text: string, s: string) returns (l: Layout)
    requires s == SkipSpace(text) && s != [] && s[0] == '[' && ParseValue(f, room, text).Ok?
    ensures LaidOut(f, room, s, l, ParseValue(f, room, text).value, ParseValue(f, room, text).rest)
    decreases |text|, 0
  {
    var t := SkipSpace(s[1..]);
    var inner := SkipParts(s[1..]);
    assert s == ['['] + s[1..];
    if t != [] && t[0] == ']' {
      l := EmptyArray(inner);
      assert t == [']'] + t[1..];
    } else {
      hide ParseElems, SkipSpace, ItemsThen, ItemValues, Blank;
      var items := ItemsLayout(f, room - 1, t, []);
      var rest := ParseElems(f, room - 1, t, []).rest;
      ItemsIndented(f, room - 1, inner, items, rest);
      ArrayOk(f, room, IndentItems(inner, items));
      NothingAdded(ItemValues(f, items));
      l := Array(IndentItems(inner, items));
    }
  }

  lemma MembersParts(f: Float64, room: nat, text: string, acc: map<string, Value>)
    requires ParseMembers(f, room, text, acc).Ok?
    ensures var s := SkipSpace(text);
            s != [] && s[0] == '"' && ParseString(s[1..]).Ok?
    ensures var Ok(name, afterKey) := ParseString(SkipSpace(text)[1..]);
            var t := SkipSpace(afterKey);
            t != [] && t[0] == ':' && |t[1..]| < |text| && ParseValue(f, room, t[1..]).Ok?
    ensures var Ok(name, afterKey) := ParseString(SkipSpace(text)[1..]);
            var Ok(v, after) := ParseValue(f, room, SkipSpace(afterKey)[1..]);
            var u := SkipSpace(after);
            u != [] && (u[0] == '}' || u[0] == ',') && |u[1..]| < |text|
            && ParseMembers(f, room, text, acc)
               == if u[0] == '}' then Ok(Obj(acc[name := v]), u[1..]) else ParseMembers(f, room, u[1..], acc[name := v])
  {
  }

  lemma {:induction false} MembersLayout(f: Float64, room: nat, text: string, acc: map<string, Value>)
    returns (members: seq<Member>)
    requires ParseMembers(f, room, text, acc).Ok?
    ensures members != [] && forall m :: m in members ==> MemberOk(f, room, m)
    ensures ParseMembers(f, room, text, acc).value == Obj(MemberValues(f, members, acc))
    ensures text == MembersThen(members, ParseMembers(f, room, text, acc).rest)
    decreases |text|, 2
  {
    MembersParts(f, room, text, acc);
    hide *;
    var rest := ParseMembers(f, room, text, acc).rest;
    var before := SkipParts(text);
    var s := SkipSpace(text);
    var name := StringSpelling(s[1..]);
    var Ok(key, afterKey) := ParseString(s[1..]);
    var beforeColon := SkipParts(afterKey);
    var t := SkipSpace(afterKey);
    var afterColon, l := ValueLayout(f, room, t[1..]);
    var Ok(v, afterValue) := ParseValue(f, room, t[1..]);
    LaidOutIs(f, room, SkipSpace(t[1..]), l, v, afterValue);
    var after := SkipParts(afterValue);
    var u := SkipSpace(afterValue);
    Uncons(s, []);
    Uncons(t, []);
    Uncons(u, []);
    var more: seq<Member> := [];
    if u[0] == ',' {
      more := MembersLayout(f, room, u[1..], acc[key := v]);
    }
    members := [Member(before, name, beforeColon, afterColon, l, after)] + more;
    MembersJoin(f, room, members[0], more, acc, u[0], u[1..], rest);
    assert members == [members[0]] + more;
  }

  lemma LaidOutIs(f: Float64, room: nat, text: string, l: Layout, v: Value, rest: string)
    requires LaidOut(f, room, text, l, v, rest)
    ensures WellFormed(f, room, l) && Meaning(f, l) == v && text == WrittenThen(l, rest)
  {
  }

  /** The text of a member and of those after it. */
  lemma MembersJoin(f: Float64, room: nat, m: Member, more: seq<Member>, acc: map<string, Value>, c: char,
                    tail: string, rest: string)
    requires Blank(m.before) && Blank(m.beforeColon) && Blank(m.afterColon) && Blank(m.after)
    requires SpelledWell(m.name) && WellFormed(f, room, m.layout) && forall x :: x in more ==> MemberOk(f, room, x)
    requires if c == '}' then more == [] && tail == rest else c == ',' && more != [] && tail == MembersThen(more, rest)
    ensures var members := [m] + more;
            (forall x :: x in members ==> MemberOk(f, room, x))
            && m.before + (['"'] + SpelledThen(m.name,
                 m.beforeColon + ([':'] + (m.afterColon + WrittenThen(m.layout, m.after + ([c] + tail))))))
               == MembersThen(members, rest)
            && MemberValues(f, members, acc)
               == if c == '}' then acc[Chars(m.name) := Meaning(f, m.layout)]
                  else MemberValues(f, more, acc[Chars(m.name) := Meaning(f, m.layout)])
  {
    var members := [m] + more;
    assert MemberOk(f, room, m);
    assert members[0] == m && members[1..] == more;
    hide *;
    MembersFacts(f, members, acc, rest);
    forall x | x in members ensures MemberOk(f, room, x) {
      if x != m { assert x in more; }
    }
  }

  lemma ElemsParts(f: Float64, room: nat, text: string, acc: seq<Value>)
    requires ParseElems(f, room, text, acc).Ok?
    ensures ParseValue(f, room, text).Ok?
    ensures var Ok(v, after) := ParseValue(f, room, text);
            var u := SkipSpace(after);
            u != [] && (u[0] == ']' || u[0] == ',') && |u[1..]| < |text|
            && ParseElems(f, room, text, acc)
               == if u[0] == ']' then Ok(Arr(acc + [v]), u[1..]) else ParseElems(f, room, u[1..], acc + [v])
  {
  }

  lemma {:induction false} ItemsLayout(f: Float64, room: nat, text: string, acc: seq<Value>) returns (items: seq<Item>)
    requires ParseElems(f, room, text, acc).Ok?
    ensures items != [] && forall i :: i in items ==> ItemOk(f, room, i)
    ensures ParseElems(f, room, text, acc).value == Arr(acc + ItemValues(f, items))
    ensures text == ItemsThen(items, ParseElems(f, room, text, acc).rest)
    decreases |text|, 3
  {
    ElemsParts(f, room, text, acc);
    hide *;
    var rest := ParseElems(f, room, text, acc).rest;
    var before, l := ValueLayout(f, room, text);
    var Ok(v, afterValue) := ParseValue(f, room, text);
    LaidOutIs(f, room, SkipSpace(text), l, v, afterValue);
    var after := SkipParts(afterValue);
    var u := SkipSpace(afterValue);
    Uncons(u, []);
    var more: seq<Item> := [];
    if u[0] == ',' {
      more := ItemsLayout(f, room, u[1..], acc + [v]);
    }
    items := [Item(before, l, after)] + more;
    ItemsJoin(f, room, items[0], more, acc, u[0], u[1..], rest);
    assert items == [items[0]] + more;
  }

  lemma ItemsJoin(f: Float64, room: nat, it: Item, more: seq<Item>, acc: seq<Value>, c: char, tail: string,
                  rest: string)
    requires Blank(it.before) && Blank(it.after) && WellFormed(f, room, it.layout)
    requires forall x :: x in more ==> ItemOk(f, room, x)
    requires if c == ']' then more == [] && tail == rest else c == ',' && more != [] && tail == ItemsThen(more, rest)
    ensures var items := [it] + more;
            (forall x :: x in items ==> ItemOk(f, room, x))
            && it.before + WrittenThen(it.layout, it.after + ([c] + tail)) == ItemsThen(items, rest)
            && acc + ItemValues(f, items)
               == if c == ']' then acc + [Meaning(f, it.layout)]
                    else acc + [Meaning(f, it.layout)] + ItemValues(f, more)
  {
    var items := [it] + more;
    assert ItemOk(f, room, it);
    assert items[0] == it && items[1..] == more;
    hide *;
    ItemsFacts(f, items, acc, rest);
    forall x | x in items ensures ItemOk(f, room, x) {
      if x != it { assert x in more; }
    }
  }

  /** A document's text: a layout of its value, white space around it. */
  ghost predicate DocumentOf(f: Float64, text: string, v: Value, before: string, l: Layout, after: string) {
    Blank(before) && Blank(after) && LaidOut(f, MAX_NESTING, WrittenThen(l, after), l, v, after)
    && text == before + WrittenThen(l, after)
  }

  /** The decoder accepts exactly the layouts of values, each as the value it lays out. */
  lemma DocumentExactly(f: Float64, text: string, v: Value)
    ensures Parse(f, text) == Some(v) <==> exists before, l, after :: DocumentOf(f, text, v, before, l, after)
  {
    if Parse(f, text) == Some(v) {
      var before, l := ValueLayout(f, MAX_NESTING, text);
      var rest := ParseValue(f, MAX_NESTING, text).rest;
      var after := SkipParts(rest);
      NothingAdded(after);
      assert DocumentOf(f, text, v, before, l, rest);
    }
    if before, l, after :| DocumentOf(f, text, v, before, l, after) {
      DocumentReads(f, before, l, after);
    }
  }
}
