/** How `ExecuteCall` renders an endpoint's path template and splits the parameters
    of a GET between path and query (pkg/gateway/client.go). Parameters arrive as
    the text `%v` gives for each value. */
module PathTemplate {
  import opened Text

  // ------------------------------------------------------------ url.PathEscape

  type Byte = b: int | 0 <= b < 256

  /** UTF-8. */
  function Utf8(c: char): seq<Byte> {
    var n := c as int;
    if n < 0x80 then [n]
    else if n < 0x800 then [0xC0 + n / 64, 0x80 + n % 64]
    else if n < 0x10000 then [0xE0 + n / 4096, 0x80 + n / 64 % 64, 0x80 + n % 64]
    else [0xF0 + n / 262144, 0x80 + n / 4096 % 64, 0x80 + n / 64 % 64, 0x80 + n % 64]
  }

  function Utf8Bytes(s: string): (bs: seq<Byte>)
    ensures s != [] ==> bs != []
  {
    if s == [] then [] else Utf8(s[0]) + Utf8Bytes(s[1..])
  }

  /** The bytes a path segment keeps as they are: RFC 3986 unreserved characters
      and the reserved ones Go leaves alone in a segment. */
  predicate KeptInSegment(b: Byte) {
    ('a' as int <= b <= 'z' as int) || ('A' as int <= b <= 'Z' as int) || ('0' as int <= b <= '9' as int)
    || b as char in "-_.~$&+:=@"
  }

  function UpperHex(n: nat): (c: char)
    requires n < 16
  {
    if n < 10 then ('0' as int + n) as char else ('A' as int + n - 10) as char
  }

  function UpperHexValue(c: char): (n: Option<nat>)
    ensures n.Some? ==> n.value < 16
  {
    if '0' <= c <= '9' then Some(c as int - '0' as int)
    else if 'A' <= c <= 'F' then Some(c as int - 'A' as int + 10)
    else None
  }

  function EscapeByte(b: Byte): string {
    if KeptInSegment(b) then [b as char] else ['%', UpperHex(b / 16), UpperHex(b % 16)]
  }

  function EscapeBytes(bs: seq<Byte>): string {
    if bs == [] then [] else EscapeByte(bs[0]) + EscapeBytes(bs[1..])
  }

  function PathEscape(s: string): string {
    EscapeBytes(Utf8Bytes(s))
  }

  /** The characters an escaped value is made of. */
  predicate SegmentChar(c: char) {
    c == '%' || (c as int < 256 && KeptInSegment(c as int))
  }

  predicate BraceFree(s: string) {
    Avoids(s, '{') && Avoids(s, '}')
  }

  lemma {:induction false} EscapedChars(bs: seq<Byte>)
    ensures forall c :: c in EscapeBytes(bs) ==> SegmentChar(c)
  {
    if bs != [] { EscapedChars(bs[1..]); }
  }

  /** An escaped value contains nothing that delimits a path, a query or a slot. */
  lemma EscapeIsSafe(s: string)
    ensures BraceFree(PathEscape(s))
    ensures Avoids(PathEscape(s), '/') && Avoids(PathEscape(s), '?') && Avoids(PathEscape(s), '#')
  {
    EscapedChars(Utf8Bytes(s));
    assert !SegmentChar('{') && !SegmentChar('}') && !SegmentChar('/') && !SegmentChar('?') && !SegmentChar('#');
  }

  /** Percent-decoding. */
  function Unescape(s: string): Option<seq<Byte>> {
    if s == [] then Some([])
    else if s[0] == '%' then
      if |s| < 3 then None
      else
        match (UpperHexValue(s[1]), UpperHexValue(s[2]), Unescape(s[3..]))
        case (Some(hi), Some(lo), Some(rest)) => Some([16 * hi + lo] + rest)
        case _ => None
    else if s[0] as int >= 256 then None
    else
      match Unescape(s[1..])
      case Some(rest) => Some([s[0] as int] + rest)
      case None => None
  }

  lemma {:induction false} UnescapeEscape(bs: seq<Byte>)
    ensures Unescape(EscapeBytes(bs)) == Some(bs)
  {
    if bs != [] {
      var b, rest := bs[0], EscapeBytes(bs[1..]);
      UnescapeEscape(bs[1..]);
      assert bs == [b] + bs[1..];
      if KeptInSegment(b) {
        assert b as char != '%';
        assert ([b as char] + rest)[1..] == rest;
      } else {
        assert (EscapeByte(b) + rest)[3..] == rest;
        assert 16 * (b / 16) + b % 16 == b;
      }
    }
  }

  /** The code point whose encoding these bytes begin with. */
  function FirstCode(s: seq<Byte>): int
    requires |s| >= 4
  {
    var a: int, b: int, c: int, d: int := s[0], s[1], s[2], s[3];
    if a < 0x80 then a
    else if a < 0xE0 then 64 * (a - 0xC0) + (b - 0x80)
    else if a < 0xF0 then 4096 * (a - 0xE0) + 64 * (b - 0x80) + (c - 0x80)
    else 262144 * (a - 0xF0) + 4096 * (b - 0x80) + 64 * (c - 0x80) + (d - 0x80)
  }

  lemma FirstCodeIs(c: char, s: seq<Byte>)
    requires |s| >= 4 && |Utf8(c)| <= |s| && Utf8(c) == s[..|Utf8(c)|]
    ensures FirstCode(s) == c as int
  {
    var n := c as int;
    forall i | 0 <= i < |Utf8(c)| ensures s[i] == Utf8(c)[i] {
      assert s[..|Utf8(c)|][i] == s[i];
    }
    assert n == 64 * (n / 64) + n % 64;
    assert n / 64 == 64 * (n / 4096) + n / 64 % 64;
    assert n / 4096 == 64 * (n / 262144) + n / 4096 % 64;
  }

  lemma Utf8First(c: char, d: char, x: seq<Byte>, y: seq<Byte>)
    requires Utf8(c) + x == Utf8(d) + y
    ensures c == d && x == y
  {
    var pad: seq<Byte> := [0, 0, 0];
    var s := Utf8(c) + x + pad;
    assert s[..|Utf8(c)|] == Utf8(c);
    assert s == Utf8(d) + y + pad;
    assert s[..|Utf8(d)|] == Utf8(d);
    FirstCodeIs(c, s);
    FirstCodeIs(d, s);
    assert c as int == d as int;
    assert (Utf8(c) + x)[|Utf8(c)|..] == x && (Utf8(d) + y)[|Utf8(d)|..] == y;
  }

  lemma {:induction false} Utf8Injective(a: string, b: string)
    requires Utf8Bytes(a) == Utf8Bytes(b)
    ensures a == b
  {
    if a != [] && b != [] {
      Utf8First(a[0], b[0], Utf8Bytes(a[1..]), Utf8Bytes(b[1..]));
      Utf8Injective(a[1..], b[1..]);
      assert a == [a[0]] + a[1..] && b == [b[0]] + b[1..];
    }
  }

  /** Escaping loses nothing: distinct values stay distinct in the path. */
  lemma EscapeInjective(a: string, b: string)
    requires PathEscape(a) == PathEscape(b)
    ensures a == b
  {
    UnescapeEscape(Utf8Bytes(a));
    UnescapeEscape(Utf8Bytes(b));
    Utf8Injective(a, b);
  }

  // ------------------------------------------------------------ strings.ReplaceAll

  function ReplaceAll(s: string, pattern: string, value: string): string
    requires pattern != []
  {
    if |s| < |pattern| then s
    else if s[..|pattern|] == pattern then value + ReplaceAll(s[|pattern|..], pattern, value)
    else [s[0]] + ReplaceAll(s[1..], pattern, value)
  }

  function Contains(s: string, sub: string): bool {
    HasPrefix(s, sub) || (s != [] && Contains(s[1..], sub))
  }

  lemma ReplaceHere(s: string, pattern: string, value: string)
    requires pattern != [] && s != []
    ensures ReplaceAll(s, pattern, value)
         == if HasPrefix(s, pattern) then value + ReplaceAll(s[|pattern|..], pattern, value)
            else [s[0]] + ReplaceAll(s[1..], pattern, value)
  {
  }

  lemma NotPrefixAt(s: string, pattern: string, i: nat)
    requires i < |pattern| && i < |s| && s[i] != pattern[i]
    ensures !HasPrefix(s, pattern)
  {
    assert |pattern| <= |s| ==> s[..|pattern|][i] == s[i];
  }

  /** Text without the first character of the pattern is copied. */
  lemma {:induction false} ReplaceSkips(text: string, rest: string, pattern: string, value: string)
    requires pattern != [] && Avoids(text, pattern[0])
    ensures ReplaceAll(text + rest, pattern, value) == text + ReplaceAll(rest, pattern, value)
  {
    if text == [] {
      assert text + rest == rest;
    } else {
      ReplaceSkips(text[1..], rest, pattern, value);
      ReplaceHere(text + rest, pattern, value);
      assert (text + rest)[1..] == text[1..] + rest;
      assert (text + rest)[0] == text[0];
      assert text[0] in text;
      NotPrefixAt(text + rest, pattern, 0);
      assert text == [text[0]] + text[1..];
    }
  }

  lemma {:induction false} ContainsByLength(s: string, sub: string)
    requires sub != []
    ensures |ReplaceAll(s, sub, [])| <= |s|
    ensures Contains(s, sub) <==> |ReplaceAll(s, sub, [])| < |s|
    decreases |s|
  {
    if s != [] {
      ReplaceHere(s, sub, []);
      if HasPrefix(s, sub) {
        ContainsByLength(s[|sub|..], sub);
      } else {
        ContainsByLength(s[1..], sub);
      }
    }
  }

  // ------------------------------------------------------------ templates

  datatype Piece = Lit(text: string) | Slot(name: string)

  function Placeholder(key: string): string {
    "{{" + key + "}}"
  }

  function PieceText(p: Piece): string {
    match p
    case Lit(text) => text
    case Slot(name) => Placeholder(name)
  }

  function Flatten(pieces: seq<Piece>): string {
    if pieces == [] then [] else PieceText(pieces[0]) + Flatten(pieces[1..])
  }

  /** Brace-free literals and slots with brace-free names. */
  predicate Template(pieces: seq<Piece>) {
    forall p :: p in pieces ==> BraceFree(if p.Lit? then p.text else p.name)
  }

  function SubstPiece(values: map<string, string>, p: Piece): Piece {
    if p.Slot? && p.name in values then Lit(values[p.name]) else p
  }

  /** All slots at once; a slot with no value stays. */
  function Subst(values: map<string, string>, pieces: seq<Piece>): (r: seq<Piece>)
    ensures |r| == |pieces|
    ensures forall i :: 0 <= i < |pieces| ==> r[i] == SubstPiece(values, pieces[i])
  {
    seq(|pieces|, i requires 0 <= i < |pieces| => SubstPiece(values, pieces[i]))
  }

  /** The loop of `ExecuteCall`: one `ReplaceAll` per parameter, in some order. */
  function Render(path: string, order: seq<string>, values: map<string, string>): string
    requires Elements(order) <= values.Keys
    decreases |order|
  {
    if order == [] then path
    else
      assert order[0] in Elements(order);
      Render(ReplaceAll(path, Placeholder(order[0]), values[order[0]]), order[1..], values)
  }

  /** A slot is matched by its own placeholder and by no other. */
  lemma SlotReplaced(name: string, rest: string, key: string, value: string)
    requires BraceFree(name) && BraceFree(key)
    ensures ReplaceAll(Placeholder(name) + rest, Placeholder(key), value)
         == (if name == key then value else Placeholder(name)) + ReplaceAll(rest, Placeholder(key), value)
  {
    var pattern, s := Placeholder(key), Placeholder(name) + rest;
    if name == key {
      ReplaceHere(s, pattern, value);
      assert s[..|pattern|] == pattern && s[|pattern|..] == rest;
    } else {
      SlotSkipped(name, rest, key, value);
    }
  }

  lemma SlotSkipped(name: string, rest: string, key: string, value: string)
    requires BraceFree(name) && BraceFree(key) && name != key
    ensures ReplaceAll(Placeholder(name) + rest, Placeholder(key), value)
         == Placeholder(name) + ReplaceAll(rest, Placeholder(key), value)
  {
    var pattern, tail := Placeholder(key), name + "}}";
    assert pattern[0] == '{' && pattern[1] == '{' && |pattern| >= 2;
    assert Placeholder(name) == "{" + ("{" + tail);
    assert Avoids(tail, '{') && tail != [] by {
      forall c | c in tail ensures c != '{' { assert c in name || c == '}'; }
    }
    OtherPlaceholder(name, rest, key);
    hide *;
    BracedSkipped(tail, rest, pattern, value);
  }

  lemma ReplaceStep(c: char, rest: string, pattern: string, value: string)
    requires pattern != [] && !HasPrefix([c] + rest, pattern)
    ensures ReplaceAll([c] + rest, pattern, value) == [c] + ReplaceAll(rest, pattern, value)
  {
    ReplaceHere([c] + rest, pattern, value);
    assert ([c] + rest)[1..] == rest;
  }

  lemma BracesAssoc(tail: string, rest: string)
    ensures "{" + ("{" + tail) + rest == "{" + ("{" + (tail + rest))
  {
    assert ("{" + tail) + rest == "{" + (tail + rest);
  }

  lemma BracedSkipped(tail: string, rest: string, pattern: string, value: string)
    requires |pattern| >= 2 && pattern[0] == '{' && pattern[1] == '{'
    requires Avoids(tail, '{') && tail != []
    requires !HasPrefix("{" + ("{" + tail) + rest, pattern)
    ensures ReplaceAll("{" + ("{" + tail) + rest, pattern, value)
         == "{" + ("{" + tail) + ReplaceAll(rest, pattern, value)
  {
    assert tail[0] in tail && tail[0] != '{';
    hide *;
    var body := tail + rest;
    assert ("{" + body)[1] == tail[0];
    NotPrefixAt("{" + body, pattern, 1);
    BracesAssoc(tail, rest);
    ReplaceStep('{', "{" + body, pattern, value);
    ReplaceStep('{', body, pattern, value);
    ReplaceSkips(tail, rest, pattern, value);
    BracesAssoc(tail, ReplaceAll(rest, pattern, value));
  }

  lemma OtherPlaceholder(name: string, rest: string, key: string)
    requires BraceFree(name) && BraceFree(key) && name != key
    ensures !HasPrefix(Placeholder(name) + rest, Placeholder(key))
  {
    var s, pattern := Placeholder(name) + rest, Placeholder(key);
    if |key| < |name| {
      assert name[|key|] in name;
      NotPrefixAt(s, pattern, 2 + |key|);
    } else if |key| > |name| {
      assert key[|name|] in key;
      NotPrefixAt(s, pattern, 2 + |name|);
    } else {
      var i :| 0 <= i < |key| && key[i] != name[i];
      NotPrefixAt(s, pattern, 2 + i);
    }
  }

  // ------------------------------------------------------------ names that span slots

  /** Text in which braces occur only as the `{{` and `}}` around brace-free names. */
  predicate TemplateText(s: string, inSlot: bool) {
    if s == [] then !inSlot
    else if s[0] == '{' then !inSlot && |s| >= 2 && s[1] == '{' && TemplateText(s[2..], true)
    else if s[0] == '}' then inSlot && |s| >= 2 && s[1] == '}' && TemplateText(s[2..], false)
    else TemplateText(s[1..], inSlot)
  }

  /** A parameter name whose placeholder is itself the text of several slots. */
  predicate Spans(key: string) {
    !BraceFree(key) && TemplateText(Placeholder(key), false)
  }

  lemma SpansExample()
    ensures Spans("a}}{{b")
  {
    var p := Placeholder("a}}{{b");
    assert p == "{{a}}{{b}}";
    assert '}' in "a}}{{b" by { assert "a}}{{b"[1] == '}'; }
    assert p[2..] == "a}}{{b}}" && "a}}{{b}}"[1..] == "}}{{b}}" && "}}{{b}}"[2..] == "{{b}}";
    assert "{{b}}"[2..] == "b}}" && "b}}"[1..] == "}}" && "}}"[2..] == "";
    assert TemplateText("}}", true) && TemplateText("b}}", true) && TemplateText("{{b}}", false);
    assert TemplateText("}}{{b}}", true) && TemplateText("a}}{{b}}", true);
  }

  lemma {:induction false} TextSkips(text: string, rest: string, inSlot: bool)
    requires BraceFree(text)
    ensures TemplateText(text + rest, inSlot) == TemplateText(rest, inSlot)
  {
    if text == [] {
      assert text + rest == rest;
    } else {
      assert text[0] in text && forall c :: c in text[1..] ==> c in text;
      assert (text + rest)[1..] == text[1..] + rest;
      TextSkips(text[1..], rest, inSlot);
    }
  }

  lemma SlotText(name: string, rest: string)
    requires BraceFree(name)
    ensures TemplateText(Placeholder(name) + rest, false) == TemplateText(rest, false)
  {
    var tail := "}}" + rest;
    assert Placeholder(name) + rest == "{{" + (name + tail);
    assert ("{{" + (name + tail))[2..] == name + tail && tail[2..] == rest;
    TextSkips(name, tail, true);
  }

  lemma {:induction false} TemplateHasText(pieces: seq<Piece>)
    requires Template(pieces)
    ensures TemplateText(Flatten(pieces), false)
  {
    if pieces != [] {
      var p, rest := pieces[0], Flatten(pieces[1..]);
      assert p in pieces && forall q :: q in pieces[1..] ==> q in pieces;
      TemplateHasText(pieces[1..]);
      if p.Lit? { TextSkips(p.text, rest, false); } else { SlotText(p.name, rest); }
    }
  }

  /** A cut just after a `}}` is a cut between pieces. */
  lemma {:induction false} CutText(p: string, rest: string, inSlot: bool)
    requires TemplateText(p + rest, inSlot)
    requires |p| >= 2 && p[|p| - 1] == '}' && p[|p| - 2] == '}'
    ensures TemplateText(p, inSlot)
    decreases |p|
  {
    var s := p + rest;
    if p[0] == '{' || p[0] == '}' {
      assert s[1] == p[1] && s[2..] == p[2..] + rest;
      assert |s| > 2 ==> s[2..][0] == s[2];
      if |p| > 3 {
        CutText(p[2..], rest, p[0] == '{');
      }
    } else {
      assert s[1..] == p[1..] + rest;
      CutText(p[1..], rest, inSlot);
    }
  }

  lemma NoMatch(s: string, inSlot: bool, key: string)
    requires TemplateText(s, inSlot) && HasPrefix(s, Placeholder(key))
    ensures !inSlot && TemplateText(Placeholder(key), false)
  {
    var p := Placeholder(key);
    assert s == p + s[|p|..];
    assert s[..|p|][0] == s[0];
    CutText(p, s[|p|..], inSlot);
  }

  /** A placeholder that is not itself the text of slots never occurs in a template. */
  lemma {:induction false} InertKey(s: string, inSlot: bool, key: string, value: string)
    requires TemplateText(s, inSlot) && !TemplateText(Placeholder(key), false)
    ensures ReplaceAll(s, Placeholder(key), value) == s
    ensures !Contains(s, Placeholder(key))
    decreases |s|
  {
    if s != [] {
      var p := Placeholder(key);
      if HasPrefix(s, p) { NoMatch(s, inSlot, key); }
      ReplaceHere(s, p, value);
      if s[0] == '{' || s[0] == '}' {
        assert s[1..][1..] == s[2..] && s[1..][0] == s[1];
        InertKey(s[2..], s[0] == '{', key, value);
        if s[0] == '}' { NotPrefixAt(s[1..], p, 0); } else if |s| > 2 { NotPrefixAt(s[1..], p, 1); }
        ReplaceHere(s[1..], p, value);
      } else {
        InertKey(s[1..], inSlot, key, value);
      }
    }
  }

  /** One `ReplaceAll` over a template fills exactly the slots of that name. */
  lemma {:induction false} ReplaceIsSubst(pieces: seq<Piece>, key: string, value: string)
    requires Template(pieces) && BraceFree(key)
    ensures ReplaceAll(Flatten(pieces), Placeholder(key), value) == Flatten(Subst(map[key := value], pieces))
  {
    if pieces != [] {
      var p, rest := pieces[0], Flatten(pieces[1..]);
      assert p in pieces && forall q :: q in pieces[1..] ==> q in pieces;
      ReplaceIsSubst(pieces[1..], key, value);
      SubstHead(map[key := value], pieces);
      hide Subst, ReplaceAll;
      if p.Lit? {
        ReplaceSkips(p.text, rest, Placeholder(key), value);
      } else {
        SlotReplaced(p.name, rest, key, value);
      }
    }
  }

  lemma SubstHead(values: map<string, string>, pieces: seq<Piece>)
    requires pieces != []
    ensures Flatten(Subst(values, pieces))
         == PieceText(SubstPiece(values, pieces[0])) + Flatten(Subst(values, pieces[1..]))
  {
    assert Subst(values, pieces)[1..] == Subst(values, pieces[1..]);
  }

  /** The same for any name that does not span slots; with braces in it, it fills none. */
  lemma SafeReplaceIsSubst(pieces: seq<Piece>, key: string, value: string)
    requires Template(pieces) && !Spans(key)
    ensures ReplaceAll(Flatten(pieces), Placeholder(key), value) == Flatten(Subst(map[key := value], pieces))
  {
    if BraceFree(key) {
      ReplaceIsSubst(pieces, key, value);
    } else {
      TemplateHasText(pieces);
      InertKey(Flatten(pieces), false, key, value);
      forall i | 0 <= i < |pieces| ensures SubstPiece(map[key := value], pieces[i]) == pieces[i] {
        assert pieces[i] in pieces;
      }
      assert Subst(map[key := value], pieces) == pieces;
    }
  }

  /** No parameter name spans slots. */
  ghost predicate SafeKeys(keys: set<string>) {
    forall k :: k in keys ==> !Spans(k)
  }

  ghost predicate BraceFreeValues(values: map<string, string>) {
    forall k :: k in values ==> BraceFree(values[k])
  }

  function Only(values: map<string, string>, keys: seq<string>): map<string, string>
    requires Elements(keys) <= values.Keys
  {
    map k | k in Elements(keys) :: values[k]
  }

  lemma SubstCompose(values: map<string, string>, order: seq<string>, pieces: seq<Piece>)
    requires order != [] && Elements(order) <= values.Keys
    ensures order[0] in values && Elements(order[1..]) <= values.Keys
    ensures Subst(Only(values, order[1..]), Subst(map[order[0] := values[order[0]]], pieces))
         == Subst(Only(values, order), pieces)
  {
    assert order[0] in Elements(order);
    assert Elements(order) == {order[0]} + Elements(order[1..]);
  }

  /** The rendering loop gives one simultaneous substitution of the parameters it
      visits, whatever the order in which the map is iterated. */
  lemma {:induction false} RenderIsSubst(pieces: seq<Piece>, order: seq<string>, values: map<string, string>)
    requires Template(pieces) && Elements(order) <= values.Keys && BraceFreeValues(values)
    requires SafeKeys(Elements(order))
    ensures Render(Flatten(pieces), order, values) == Flatten(Subst(Only(values, order), pieces))
    decreases |order|
  {
    if order == [] {
      assert Subst(Only(values, order), pieces) == pieces;
    } else {
      var key := order[0];
      assert key in Elements(order);
      SubstCompose(values, order, pieces);
      SafeReplaceIsSubst(pieces, key, values[key]);
      var filled := Subst(map[key := values[key]], pieces);
      assert Template(filled) by {
        forall p | p in filled ensures BraceFree(if p.Lit? then p.text else p.name) {
          var i :| 0 <= i < |filled| && filled[i] == p;
          assert pieces[i] in pieces;
        }
      }
      assert Elements(order[1..]) <= Elements(order);
      RenderIsSubst(filled, order[1..], values);
    }
  }

  /** The escaped values, as the loop substitutes them. */
  function Escaped(params: map<string, string>): (values: map<string, string>)
    ensures values.Keys == params.Keys
  {
    map k | k in params :: PathEscape(params[k])
  }

  lemma EscapedBraceFree(params: map<string, string>)
    ensures BraceFreeValues(Escaped(params))
  {
    forall k | k in params ensures BraceFree(Escaped(params)[k]) {
      EscapeIsSafe(params[k]);
    }
  }

  /** The rendered path does not depend on the iteration order of the parameters:
      every order fills each slot with its own escaped value and leaves the slots
      of unknown names as they were. */
  lemma Confluent(pieces: seq<Piece>, order: seq<string>, params: map<string, string>)
    requires Template(pieces) && SafeKeys(params.Keys) && Elements(order) == params.Keys
    ensures Render(Flatten(pieces), order, Escaped(params)) == Flatten(Subst(Escaped(params), pieces))
  {
    EscapedBraceFree(params);
    RenderIsSubst(pieces, order, Escaped(params));
    assert Only(Escaped(params), order) == Escaped(params);
  }

  /** The loop itself. The order is whatever map iteration gives. */
  method RenderPath(path: string, params: map<string, string>) returns (rendered: string, ghost order: seq<string>)
    ensures Elements(order) == params.Keys
    ensures rendered == Render(path, order, Escaped(params))
    ensures SafeKeys(params.Keys) ==>
              forall pieces :: Template(pieces) && path == Flatten(pieces) ==>
                rendered == Flatten(Subst(Escaped(params), pieces))
  {
    rendered := path;
    order := [];
    var left := params.Keys;
    while left != {}
      invariant left <= params.Keys && Elements(order) == params.Keys - left
      invariant rendered == Render(path, order, Escaped(params))
      decreases left
    {
      var k :| k in left;
      RenderAppend(path, order, k, Escaped(params));
      assert Elements(order + [k]) == Elements(order) + {k};
      rendered := ReplaceAll(rendered, Placeholder(k), PathEscape(params[k]));
      order := order + [k];
      left := left - {k};
    }
    if SafeKeys(params.Keys) {
      forall pieces | Template(pieces) && path == Flatten(pieces)
        ensures rendered == Flatten(Subst(Escaped(params), pieces))
      {
        Confluent(pieces, order, params);
      }
    }
  }

  lemma {:induction false} RenderAppend(path: string, order: seq<string>, k: string, values: map<string, string>)
    requires Elements(order) <= values.Keys && k in values
    ensures Elements(order + [k]) <= values.Keys
    ensures Render(path, order + [k], values) == ReplaceAll(Render(path, order, values), Placeholder(k), values[k])
    decreases |order|
  {
    assert Elements(order + [k]) == Elements(order) + {k};
    if order == [] {
      assert (order + [k])[1..] == [];
    } else {
      assert order[0] in Elements(order);
      assert (order + [k])[1..] == order[1..] + [k];
      assert Elements(order[1..]) <= Elements(order);
      RenderAppend(ReplaceAll(path, Placeholder(order[0]), values[order[0]]), order[1..], k, values);
    }
  }

  // ------------------------------------------------------------ exactly when it is confluent

  function LiteralEnd(s: string): (n: nat)
    ensures n <= |s| && BraceFree(s[..n])
    ensures n < |s| ==> s[n] == '{' || s[n] == '}'
  {
    if s == [] || s[0] == '{' || s[0] == '}' then 0
    else
      var n := LiteralEnd(s[1..]);
      assert s[..n + 1] == [s[0]] + s[1..][..n];
      n + 1
  }

  lemma TextMark(s: string, inSlot: bool)
    requires TemplateText(s, inSlot) && s != [] && (s[0] == '{' || s[0] == '}')
    ensures |s| >= 2 && s[..2] == (if inSlot then "}}" else "{{")
    ensures TemplateText(s[2..], !inSlot)
  {
  }

  lemma TextAfter(s: string, inSlot: bool)
    requires TemplateText(s, inSlot)
    ensures var n := LiteralEnd(s);
            if inSlot then n + 2 <= |s| && s[n..n + 2] == "}}" && TemplateText(s[n + 2..], false)
            else n < |s| ==> n + 2 <= |s| && s[n..n + 2] == "{{" && TemplateText(s[n + 2..], true)
  {
    var n := LiteralEnd(s);
    var rest := s[n..];
    assert !TemplateText([], true);
    hide TemplateText, LiteralEnd;
    assert s == s[..n] + rest;
    TextSkips(s[..n], rest, inSlot);
    if n < |s| {
      TextMark(rest, inSlot);
      assert rest[..2] == s[n..n + 2] && rest[2..] == s[n + 2..];
    } else {
      assert rest == [];
    }
  }

  lemma CutTwo(s: string, n: nat, mark: string)
    requires n + 2 <= |s| && s[n..n + 2] == mark
    ensures s == s[..n] + (mark + s[n + 2..])
  {
    assert s[n..] == mark + s[n + 2..];
  }

  lemma PlaceholderText(name: string, rest: string)
    ensures Placeholder(name) + rest == "{{" + (name + ("}}" + rest))
  {
  }

  lemma SlotAssembled(s: string, text: string, t: string, name: string, rest: string)
    requires s == text + ("{{" + t) && t == name + ("}}" + rest)
    ensures s == text + (Placeholder(name) + rest)
    ensures |rest| < |s|
  {
    assert |s| == |text| + 2 + |name| + 2 + |rest|;
    PlaceholderText(name, rest);
    hide *;
  }

  /** The first literal and slot of a template's text, and what follows. */
  lemma FirstSlot(s: string) returns (text: string, name: string, rest: string)
    requires TemplateText(s, false) && LiteralEnd(s) < |s|
    ensures BraceFree(text) && BraceFree(name) && |rest| < |s| && TemplateText(rest, false)
    ensures s == text + (Placeholder(name) + rest)
  {
    hide TemplateText;
    var n := LiteralEnd(s);
    TextAfter(s, false);
    var t := s[n + 2..];
    var m := LiteralEnd(t);
    TextAfter(t, true);
    hide *;
    text, name, rest := s[..n], t[..m], t[m + 2..];
    assert s == text + ("{{" + t) by { CutTwo(s, n, "{{"); }
    assert t == name + ("}}" + rest) by { CutTwo(t, m, "}}"); }
    SlotAssembled(s, text, t, name, rest);
  }

  /** A template's text is the text of some pieces. */
  lemma {:induction false} PiecesOf(s: string) returns (pieces: seq<Piece>)
    requires TemplateText(s, false)
    ensures Template(pieces) && Flatten(pieces) == s
    decreases |s|
  {
    var n := LiteralEnd(s);
    if n == |s| {
      assert s[..n] == s;
      pieces := [Lit(s)];
      FlattenOne(Lit(s));
    } else {
      var text, name, rest := FirstSlot(s);
      var more := PiecesOf(rest);
      FlattenSlot(text, name, more);
      pieces := [Lit(text), Slot(name)] + more;
    }
  }

  lemma FlattenSlot(text: string, name: string, rest: seq<Piece>)
    ensures Flatten([Lit(text), Slot(name)] + rest) == text + (Placeholder(name) + Flatten(rest))
  {
    var pieces := [Lit(text), Slot(name)] + rest;
    assert pieces[1..] == [Slot(name)] + rest && pieces[1..][1..] == rest;
  }

  /** The loop gives the simultaneous substitution on this template in this order. */
  ghost predicate RendersAll(pieces: seq<Piece>, order: seq<string>, params: map<string, string>)
    requires Elements(order) == params.Keys
  {
    Render(Flatten(pieces), order, Escaped(params)) == Flatten(Subst(Escaped(params), pieces))
  }

  /** Parameters of these names are always substituted simultaneously, in every
      template, order and choice of values. */
  ghost predicate AlwaysRenders(keys: set<string>) {
    forall pieces, order, params: map<string, string> ::
      Template(pieces) && params.Keys == keys && Elements(order) == keys ==> RendersAll(pieces, order, params)
  }

  /** Values free of braces are never touched again. */
  lemma {:induction false} RenderKeeps(text: string, order: seq<string>, values: map<string, string>)
    requires BraceFree(text) && Elements(order) <= values.Keys
    ensures Render(text, order, values) == text
    decreases |order|
  {
    if order != [] {
      assert order[0] in Elements(order);
      assert Elements(order[1..]) <= Elements(order);
      ReplaceSkips(text, [], Placeholder(order[0]), values[order[0]]);
      assert text + [] == text && ReplaceAll([], Placeholder(order[0]), values[order[0]]) == [];
      RenderKeeps(text, order[1..], values);
    }
  }

  /** With a spanning name visited first, the slots it spans become its own value. */
  lemma SpanTakesOver(key: string, rest: seq<string>, params: map<string, string>)
    requires Elements([key] + rest) == params.Keys
    ensures Render(Placeholder(key), [key] + rest, Escaped(params)) == PathEscape(params[key])
  {
    assert key in Elements([key] + rest);
    var p, v := Placeholder(key), PathEscape(params[key]);
    assert ([key] + rest)[1..] == rest && ([key] + rest)[0] == key;
    assert Elements(rest) <= Elements([key] + rest);
    assert p[..|p|] == p && p[|p|..] == [];
    assert ReplaceAll(p, p, v) == v + ReplaceAll([], p, v) == v;
    EscapeIsSafe(params[key]);
    RenderKeeps(v, rest, Escaped(params));
  }

  /** A name with braces fills no slot, so its value does not matter to substitution. */
  lemma SubstIgnores(pieces: seq<Piece>, key: string, a: map<string, string>, b: map<string, string>)
    requires Template(pieces) && !BraceFree(key)
    requires a.Keys == b.Keys && forall k :: k in a && k != key ==> a[k] == b[k]
    ensures Subst(a, pieces) == Subst(b, pieces)
  {
    forall i | 0 <= i < |pieces| ensures SubstPiece(a, pieces[i]) == SubstPiece(b, pieces[i]) {
      assert pieces[i] in pieces;
    }
  }

  lemma EscapeDigit(d: char)
    requires '0' <= d <= '9'
    ensures PathEscape([d]) == [d]
  {
    assert Utf8Bytes([d]) == [d as int] + Utf8Bytes([]);
    assert EscapeBytes([d as int]) == [d] + EscapeBytes([]);
  }

  /** A spanning name breaks it for one of two choices of its value. */
  lemma SpanBreaks(keys: set<string>, key: string)
    requires key in keys && Spans(key)
    ensures !AlwaysRenders(keys)
  {
    var pieces := PiecesOf(Placeholder(key));
    var rest := SortedKeys(keys - {key});
    var order := [key] + rest;
    assert Elements(order) == {key} + Elements(rest) == keys;
    var a := map k | k in keys :: if k == key then "1" else "0";
    var b := map k | k in keys :: "0";
    EscapeDigit('0');
    EscapeDigit('1');
    SpanTakesOver(key, rest, a);
    SpanTakesOver(key, rest, b);
    SubstIgnores(pieces, key, Escaped(a), Escaped(b));
    assert "1" != "0";
    assert !RendersAll(pieces, order, a) || !RendersAll(pieces, order, b);
  }

  /** The loop is a simultaneous substitution, for every template, order and values,
      exactly when no parameter name spans slots (`a}}{{b` does: it matches the two
      adjacent slots of `a` and `b` when it is visited before them). */
  lemma ConfluentExactly(keys: set<string>)
    ensures AlwaysRenders(keys) <==> SafeKeys(keys)
  {
    if SafeKeys(keys) {
      forall pieces, order, params: map<string, string> |
        Template(pieces) && params.Keys == keys && Elements(order) == keys
        ensures RendersAll(pieces, order, params)
      {
        Confluent(pieces, order, params);
      }
    } else {
      var key :| key in keys && Spans(key);
      SpanBreaks(keys, key);
    }
  }

  // ------------------------------------------------------------ path or query

  /** A template has the placeholder of a name exactly when it has its slot. */
  lemma PlaceholderIsSlot(pieces: seq<Piece>, key: string)
    requires Template(pieces) && !Spans(key)
    ensures Contains(Flatten(pieces), Placeholder(key)) <==> Slot(key) in pieces
  {
    ContainsByLength(Flatten(pieces), Placeholder(key));
    SafeReplaceIsSubst(pieces, key, []);
    EmptiedIsShorter(pieces, key);
  }

  lemma {:induction false} EmptiedIsShorter(pieces: seq<Piece>, key: string)
    ensures var emptied := Flatten(Subst(map[key := []], pieces));
            if Slot(key) in pieces then |emptied| < |Flatten(pieces)| else emptied == Flatten(pieces)
  {
    if pieces != [] {
      var values := map[key := []];
      var p, rest := pieces[0], pieces[1..];
      assert Subst(values, pieces)[1..] == Subst(values, rest);
      assert Flatten(Subst(values, pieces)) == PieceText(SubstPiece(values, p)) + Flatten(Subst(values, rest));
      assert p == Slot(key) ==> PieceText(SubstPiece(values, p)) == [] && |PieceText(p)| > 0;
      assert p != Slot(key) ==> SubstPiece(values, p) == p;
      assert pieces == [p] + rest;
      hide Subst, SubstPiece, PieceText;
      EmptiedIsShorter(rest, key);
      assert Slot(key) in pieces <==> p == Slot(key) || Slot(key) in rest;
    }
  }

  type Query = map<string, seq<string>>

  /** The parameters a GET adds to the query it already has. */
  function QueryParams(path: string, params: map<string, string>): map<string, string> {
    map k | k in params && !Contains(path, Placeholder(k)) :: params[k]
  }

  function SetAll(query: Query, params: map<string, string>): Query {
    query + map k | k in params :: [params[k]]
  }

  lemma AddParam(path: string, base: Query, params: map<string, string>, left: set<string>, k: string)
    requires left <= params.Keys && k in left
    ensures var before, after := QueryParams(path, params - left), QueryParams(path, params - (left - {k}));
            SetAll(base, after)
            == if Contains(path, Placeholder(k)) then SetAll(base, before)
               else SetAll(base, before)[k := [params[k]]]
  {
    hide Contains, Placeholder;
    var before, after := QueryParams(path, params - left), QueryParams(path, params - (left - {k}));
    assert after == if Contains(path, Placeholder(k)) then before else before[k := params[k]];
    SetOne(base, before, k, params[k]);
    hide *;
  }

  lemma SetOne(base: Query, params: map<string, string>, k: string, value: string)
    ensures SetAll(base, params[k := value]) == SetAll(base, params)[k := [value]]
  {
  }

  method AppendQuery(path: string, base: Query, params: map<string, string>) returns (query: Query)
    ensures query == SetAll(base, QueryParams(path, params))
    ensures forall k :: k in query <==> k in base || (k in params && !Contains(path, Placeholder(k)))
    ensures forall k :: k in query ==>
              query[k] == if k in params && !Contains(path, Placeholder(k)) then [params[k]] else base[k]
  {
    hide Contains, Placeholder;
    query := base;
    var left := params.Keys;
    while left != {}
      invariant left <= params.Keys
      invariant query == SetAll(base, QueryParams(path, params - left))
      decreases left
    {
      var k :| k in left;
      AddParam(path, base, params, left, k);
      if !Contains(path, Placeholder(k)) {
        query := query[k := [params[k]]];
      }
      left := left - {k};
    }
    assert params - {} == params;
  }

  /** Of a GET, every parameter goes to the path or to the query and never to both:
      to the path exactly when the template has its slot, and then its escaped value
      stands in every such slot; otherwise the query carries its value. */
  lemma PathOrQuery(pieces: seq<Piece>, base: Query, params: map<string, string>, key: string)
    requires Template(pieces) && SafeKeys(params.Keys) && key in params
    ensures var query := SetAll(base, QueryParams(Flatten(pieces), params));
            if Slot(key) in pieces then
              key !in QueryParams(Flatten(pieces), params)
              && (key in query <==> key in base) && (key in base ==> query[key] == base[key])
              && forall i :: 0 <= i < |pieces| && pieces[i] == Slot(key) ==>
                   Subst(Escaped(params), pieces)[i] == Lit(PathEscape(params[key]))
            else
              key in query && query[key] == [params[key]]
              && forall i :: 0 <= i < |pieces| && pieces[i].Slot? && Subst(Escaped(params), pieces)[i] != pieces[i] ==>
                   pieces[i].name != key
  {
    PlaceholderIsSlot(pieces, key);
  }

  // ------------------------------------------------------------ path structure

  /** The template cut at every `d` that occurs in a literal. */
  function SplitPieces(d: char, pieces: seq<Piece>): (parts: seq<seq<Piece>>)
    ensures parts != []
  {
    if pieces == [] then [[]]
    else Joined(CutPiece(d, pieces[0]), SplitPieces(d, pieces[1..]))
  }

  function CutPiece(d: char, p: Piece): (parts: seq<seq<Piece>>)
    ensures parts != []
  {
    if p.Slot? then [[p]]
    else
      var texts := Split(d, p.text);
      seq(|texts|, i requires 0 <= i < |texts| => [Lit(texts[i])])
  }

  function FlattenAll(parts: seq<seq<Piece>>): (texts: seq<string>)
    ensures |texts| == |parts|
    ensures forall i :: 0 <= i < |parts| ==> texts[i] == Flatten(parts[i])
  {
    seq(|parts|, i requires 0 <= i < |parts| => Flatten(parts[i]))
  }

  lemma {:induction false} FlattenConcat(a: seq<Piece>, b: seq<Piece>)
    ensures Flatten(a + b) == Flatten(a) + Flatten(b)
  {
    if a == [] {
      assert a + b == b;
    } else {
      assert (a + b)[1..] == a[1..] + b;
      assert Flatten(a + b) == PieceText(a[0]) + Flatten(a[1..] + b);
      assert Flatten(a) == PieceText(a[0]) + Flatten(a[1..]);
      hide *;
      FlattenConcat(a[1..], b);
    }
  }

  lemma FlattenJoined(a: seq<seq<Piece>>, b: seq<seq<Piece>>)
    requires a != [] && b != []
    ensures FlattenAll(Joined(a, b)) == Joined(FlattenAll(a), FlattenAll(b))
  {
    FlattenConcat(a[|a| - 1], b[0]);
  }

  lemma FlattenOne(p: Piece)
    ensures Flatten([p]) == PieceText(p)
  {
    assert Flatten([p]) == PieceText(p) + Flatten([p][1..]);
    assert [p][1..] == [];
  }

  /** Slot names that do not contain the delimiter. */
  predicate NamesAvoid(pieces: seq<Piece>, d: char) {
    forall p :: p in pieces && p.Slot? ==> Avoids(p.name, d)
  }

  lemma CutPieceText(d: char, p: Piece)
    requires d != '{' && d != '}' && (p.Slot? ==> Avoids(p.name, d))
    ensures FlattenAll(CutPiece(d, p)) == Split(d, PieceText(p))
  {
    if p.Slot? {
      SplitWithout(d, PieceText(p));
      FlattenOne(p);
    } else {
      forall i | 0 <= i < |CutPiece(d, p)| ensures Flatten(CutPiece(d, p)[i]) == Split(d, p.text)[i] {
        FlattenOne(CutPiece(d, p)[i][0]);
      }
    }
  }

  /** Cutting the template and then writing it out is splitting its text. */
  lemma {:induction false} SplitFlatten(d: char, pieces: seq<Piece>)
    requires d != '{' && d != '}' && NamesAvoid(pieces, d)
    ensures FlattenAll(SplitPieces(d, pieces)) == Split(d, Flatten(pieces))
  {
    if pieces == [] {
      assert FlattenAll([[]]) == [[]];
    } else {
      assert pieces[0] in pieces && forall q :: q in pieces[1..] ==> q in pieces;
      CutPieceText(d, pieces[0]);
      SplitFlatten(d, pieces[1..]);
      FlattenJoined(CutPiece(d, pieces[0]), SplitPieces(d, pieces[1..]));
      SplitConcat(d, PieceText(pieces[0]), Flatten(pieces[1..]));
    }
  }

  ghost predicate ValuesAvoid(values: map<string, string>, d: char) {
    forall k :: k in values ==> Avoids(values[k], d)
  }

  function SubstAll(values: map<string, string>, parts: seq<seq<Piece>>): (r: seq<seq<Piece>>)
    ensures |r| == |parts|
    ensures forall i :: 0 <= i < |parts| ==> r[i] == Subst(values, parts[i])
  {
    seq(|parts|, i requires 0 <= i < |parts| => Subst(values, parts[i]))
  }

  lemma SubstJoined(values: map<string, string>, a: seq<seq<Piece>>, b: seq<seq<Piece>>)
    requires a != [] && b != []
    ensures SubstAll(values, Joined(a, b)) == Joined(SubstAll(values, a), SubstAll(values, b))
  {
    assert Subst(values, a[|a| - 1] + b[0]) == Subst(values, a[|a| - 1]) + Subst(values, b[0]);
  }

  /** The values that fill slots do not contain `d`. */
  ghost predicate FillsAvoid(values: map<string, string>, pieces: seq<Piece>, d: char) {
    forall p :: p in pieces && p.Slot? && p.name in values ==> Avoids(values[p.name], d)
  }

  lemma SubstCut(d: char, values: map<string, string>, p: Piece)
    requires p.Slot? && p.name in values ==> Avoids(values[p.name], d)
    ensures CutPiece(d, SubstPiece(values, p)) == SubstAll(values, CutPiece(d, p))
  {
    if p.Slot? {
      if p.name in values { SplitWithout(d, values[p.name]); }
      assert Subst(values, [p]) == [SubstPiece(values, p)];
    } else {
      forall i | 0 <= i < |CutPiece(d, p)| ensures Subst(values, CutPiece(d, p)[i]) == CutPiece(d, p)[i] {
      }
    }
  }

  /** Filling slots with text free of `d` does not move the cuts. */
  lemma {:induction false} SplitSubst(d: char, values: map<string, string>, pieces: seq<Piece>)
    requires FillsAvoid(values, pieces, d)
    ensures SplitPieces(d, Subst(values, pieces)) == SubstAll(values, SplitPieces(d, pieces))
  {
    if pieces == [] {
      assert Subst(values, []) == [];
      assert SubstAll(values, [[]]) == [[]];
    } else {
      assert Subst(values, pieces)[1..] == Subst(values, pieces[1..]);
      assert pieces[0] in pieces && forall q :: q in pieces[1..] ==> q in pieces;
      SplitSubst(d, values, pieces[1..]);
      SubstCut(d, values, pieces[0]);
      SubstJoined(values, CutPiece(d, pieces[0]), SplitPieces(d, pieces[1..]));
    }
  }

  /** Each part of a split rendered on its own. */
  function RenderEach(parts: seq<string>, order: seq<string>, values: map<string, string>): (r: seq<string>)
    requires Elements(order) <= values.Keys
    ensures |r| == |parts|
    ensures forall i :: 0 <= i < |parts| ==> r[i] == Render(parts[i], order, values)
  {
    seq(|parts|, i requires 0 <= i < |parts| => Render(parts[i], order, values))
  }

  predicate Delimiter(d: char) { d == '/' || d == '?' || d == '#' }

  /** Substitution preserves the structure of the URL: cut at a delimiter, the
      rendered path has exactly the template's parts, each rendered on its own. So no
      value adds a path segment, starts a query or a fragment. */
  lemma StructurePreserved(pieces: seq<Piece>, order: seq<string>, params: map<string, string>, d: char)
    requires Template(pieces) && NamesAvoid(pieces, d) && Delimiter(d)
    requires SafeKeys(params.Keys) && Elements(order) == params.Keys
    ensures Split(d, Render(Flatten(pieces), order, Escaped(params)))
         == RenderEach(Split(d, Flatten(pieces)), order, Escaped(params))
  {
    var values := Escaped(params);
    forall k | k in values ensures Avoids(values[k], d) { EscapeIsSafe(params[k]); }
    Confluent(pieces, order, params);
    SubstNamesAvoid(values, pieces, d);
    SplitFlatten(d, Subst(values, pieces));
    SplitSubst(d, values, pieces);
    SplitFlatten(d, pieces);
    var parts := SplitPieces(d, pieces);
    PartsAreTemplates(d, pieces);
    forall i | 0 <= i < |parts|
      ensures Render(Flatten(parts[i]), order, values) == Flatten(Subst(values, parts[i]))
    {
      Confluent(parts[i], order, params);
    }
  }

  lemma SubstNamesAvoid(values: map<string, string>, pieces: seq<Piece>, d: char)
    requires NamesAvoid(pieces, d)
    ensures NamesAvoid(Subst(values, pieces), d)
  {
    forall p | p in Subst(values, pieces) && p.Slot? ensures Avoids(p.name, d) {
      var i :| 0 <= i < |pieces| && Subst(values, pieces)[i] == p;
      assert pieces[i] in pieces;
    }
  }

  lemma {:induction false} SplitCharacters(d: char, s: string)
    ensures forall part, c :: part in Split(d, s) && c in part ==> c in s
  {
    if s != [] {
      SplitCharacters(d, s[1..]);
      var rest := Split(d, s[1..]);
      forall part, c | part in Split(d, s) && c in part ensures c in s {
        if part in rest {
        } else if s[0] != d {
          assert part == [s[0]] + rest[0];
          assert rest[0] in rest;
        }
      }
    }
  }

  ghost predicate Templates(parts: seq<seq<Piece>>) {
    forall i :: 0 <= i < |parts| ==> Template(parts[i])
  }

  lemma TemplateConcat(a: seq<Piece>, b: seq<Piece>)
    requires Template(a) && Template(b)
    ensures Template(a + b)
  {
    assert forall p :: p in a + b ==> p in a || p in b;
  }

  lemma TemplatesJoined(a: seq<seq<Piece>>, b: seq<seq<Piece>>)
    requires a != [] && b != [] && Templates(a) && Templates(b)
    ensures Templates(Joined(a, b))
  {
    TemplateConcat(a[|a| - 1], b[0]);
    hide Template;
  }

  lemma CutTemplates(d: char, p: Piece)
    requires BraceFree(if p.Lit? then p.text else p.name)
    ensures Templates(CutPiece(d, p))
  {
    if p.Lit? {
      SplitCharacters(d, p.text);
      forall i | 0 <= i < |CutPiece(d, p)| ensures Template(CutPiece(d, p)[i]) {
        assert Split(d, p.text)[i] in Split(d, p.text);
      }
    }
  }

  lemma {:induction false} PartsAreTemplates(d: char, pieces: seq<Piece>)
    requires Template(pieces)
    ensures Templates(SplitPieces(d, pieces))
  {
    if pieces != [] {
      assert pieces[0] in pieces && forall q :: q in pieces[1..] ==> q in pieces;
      PartsAreTemplates(d, pieces[1..]);
      CutTemplates(d, pieces[0]);
      TemplatesJoined(CutPiece(d, pieces[0]), SplitPieces(d, pieces[1..]));
    }
  }
}
