/** JSON values, the canonical printer that feeds the tool-definition hash, and
    the decoder `json.Unmarshal` applies to a schema string (RFC 8259 sections 2
    to 7). A float64 is identified with the shortest decimal literal Go prints for
    it; `Float64` maps any literal to that text, or to nothing when the literal
    is out of range. */
module Json {
  import opened Text

  datatype Value =
    | Null
    | Bool(b: bool)
    | Number(literal: string)
    | Str(s: string)
    | Arr(elems: seq<Value>)
    | Obj(m: map<string, Value>)

  /** The result of a decoding step: a value and the text left to read. */
  datatype Parsed<+T> = Fail | Ok(value: T, rest: string)

  type Float64 = string -> Option<string>

  /** `encoding/json` refuses documents nested deeper than this. */
  const MAX_NESTING := 10000

  // ------------------------------------------------------------ characters

  predicate IsSpace(c: char) { c == ' ' || c == '\t' || c == '\r' || c == '\n' }

  predicate IsNumberChar(c: char) {
    IsDigit(c) || c == '-' || c == '+' || c == '.' || c == 'e' || c == 'E'
  }

  function HexDigit(n: nat): (c: char)
    requires n < 16
  {
    if n < 10 then ('0' as int + n) as char else ('a' as int + n - 10) as char
  }

  function HexValue(c: char): (n: Option<nat>)
    ensures n.Some? ==> n.value < 16
  {
    if '0' <= c <= '9' then Some(c as int - '0' as int)
    else if 'a' <= c <= 'f' then Some(c as int - 'a' as int + 10)
    else if 'A' <= c <= 'F' then Some(c as int - 'A' as int + 10)
    else None
  }

  function Hex4(s: string): (n: Option<nat>)
    ensures n.Some? ==> n.value < 0x10000 && 4 <= |s|
  {
    if |s| < 4 then None
    else
      match (HexValue(s[0]), HexValue(s[1]), HexValue(s[2]), HexValue(s[3]))
      case (Some(a), Some(b), Some(c), Some(d)) => Some(4096 * a + 256 * b + 16 * c + d)
      case _ => None
  }

  function Hex4Text(n: nat): (s: string)
    requires n < 0x10000
    ensures |s| == 4
  {
    [HexDigit(n / 4096), HexDigit(n / 256 % 16), HexDigit(n / 16 % 16), HexDigit(n % 16)]
  }

  lemma HexDigitValue(n: nat)
    requires n < 16
    ensures HexValue(HexDigit(n)) == Some(n)
  {
  }

  lemma HexPositions(n: nat)
    requires n < 0x10000
    ensures 4096 * (n / 4096) + 256 * (n / 256 % 16) + 16 * (n / 16 % 16) + n % 16 == n
  {
    assert n / 256 == 16 * (n / 4096) + n / 256 % 16;
    assert n / 16 == 16 * (n / 256) + n / 16 % 16;
  }

  lemma Hex4RoundTrip(n: nat, rest: string)
    requires n < 0x10000
    ensures Hex4(Hex4Text(n) + rest) == Some(n)
  {
    var a, b, c, d := n / 4096, n / 256 % 16, n / 16 % 16, n % 16;
    HexPositions(n);
    HexDigitValue(a);
    HexDigitValue(b);
    HexDigitValue(c);
    HexDigitValue(d);
    var s := Hex4Text(n) + rest;
    assert s[0] == HexDigit(a) && s[1] == HexDigit(b) && s[2] == HexDigit(c) && s[3] == HexDigit(d);
  }

  // ------------------------------------------------------------ strings

  predicate NeedsUnicodeEscape(c: char) {
    c < ' ' || c == '<' || c == '>' || c == '&' || c == '\U{2028}' || c == '\U{2029}'
  }

  /** How `json.Marshal` writes one character inside a string. */
  function EncodeChar(c: char): (s: string)
    ensures s != [] && s[0] != '"'
  {
    if c == '"' then "\\\""
    else if c == '\\' then "\\\\"
    else if c == '\U{08}' then "\\b"
    else if c == '\U{0C}' then "\\f"
    else if c == '\n' then "\\n"
    else if c == '\r' then "\\r"
    else if c == '\t' then "\\t"
    else if NeedsUnicodeEscape(c) then "\\u" + Hex4Text(c as int)
    else [c]
  }

  function EncodeChars(s: string): string {
    if s == [] then [] else EncodeChar(s[0]) + EncodeChars(s[1..])
  }

  function Quote(s: string): string {
    "\"" + EncodeChars(s) + "\""
  }

  predicate IsHighSurrogate(u: int) { 0xD800 <= u < 0xDC00 }
  predicate IsLowSurrogate(u: int) { 0xDC00 <= u < 0xE000 }

  /** The code unit after `\u`, joined with a following low surrogate; a lone
      surrogate decodes to U+FFFD. */
  function DecodeUnicode(s: string): (r: Parsed<char>)
    ensures r.Ok? ==> |r.rest| < |s|
  {
    match Hex4(s)
    case None => Fail
    case Some(u) =>
      if !IsHighSurrogate(u) && !IsLowSurrogate(u) then Ok(u as char, s[4..])
      else if IsHighSurrogate(u) && |s| >= 6 && s[4] == '\\' && s[5] == 'u' && Hex4(s[6..]).Some?
              && IsLowSurrogate(Hex4(s[6..]).value) then
        Ok((0x10000 + (u - 0xD800) * 0x400 + (Hex4(s[6..]).value - 0xDC00)) as char, s[10..])
      else Ok('\U{FFFD}', s[4..])
  }

  function DecodeEscape(s: string): (r: Parsed<char>)
    ensures r.Ok? ==> |r.rest| < |s|
  {
    if s == [] then Fail
    else match s[0]
      case '"' => Ok('"', s[1..])
      case '\\' => Ok('\\', s[1..])
      case '/' => Ok('/', s[1..])
      case 'b' => Ok('\U{08}', s[1..])
      case 'f' => Ok('\U{0C}', s[1..])
      case 'n' => Ok('\n', s[1..])
      case 'r' => Ok('\r', s[1..])
      case 't' => Ok('\t', s[1..])
      case 'u' => DecodeUnicode(s[1..])
      case _ => Fail
  }

  function DecodeChar(s: string): (r: Parsed<char>)
    requires s != []
    ensures r.Ok? ==> |r.rest| < |s|
  {
    if s[0] == '\\' then DecodeEscape(s[1..])
    else if s[0] < ' ' then Fail
    else Ok(s[0], s[1..])
  }

  /** The body of a string literal, from just after its opening quote. */
  function ParseString(s: string): (r: Parsed<string>)
    ensures r.Ok? ==> |r.rest| < |s|
    decreases |s|
  {
    if s == [] then Fail
    else if s[0] == '"' then Ok([], s[1..])
    else
      match DecodeChar(s)
      case Fail => Fail
      case Ok(c, rest) =>
        match ParseString(rest)
        case Fail => Fail
        case Ok(t, after) => Ok([c] + t, after)
  }

  lemma EscapedCharRoundTrip(c: char, rest: string)
    requires NeedsUnicodeEscape(c)
    ensures DecodeChar("\\u" + Hex4Text(c as int) + rest) == Ok(c, rest)
  {
    var digits := Hex4Text(c as int) + rest;
    var text := "\\u" + Hex4Text(c as int) + rest;
    assert text[1..] == "u" + digits;
    assert ("u" + digits)[1..] == digits;
    Hex4RoundTrip(c as int, rest);
    assert digits[4..] == rest;
  }

  lemma CharRoundTrip(c: char, rest: string)
    ensures DecodeChar(EncodeChar(c) + rest) == Ok(c, rest)
  {
    EncodeForms(c);
    hide *;
    if |EncodeChar(c)| == 2 {
      ShortEscapeRoundTrip(c, rest);
    } else if NeedsUnicodeEscape(c) {
      EscapedCharRoundTrip(c, rest);
    } else {
      PlainCharRoundTrip(c, rest);
    }
  }

  lemma EncodeForms(c: char)
    ensures |EncodeChar(c)| == 2
            || (NeedsUnicodeEscape(c) && EncodeChar(c) == "\\u" + Hex4Text(c as int))
            || (!NeedsUnicodeEscape(c) && EncodeChar(c) == [c] && c != '\\' && c >= ' ')
  {
  }

  lemma PlainCharRoundTrip(c: char, rest: string)
    requires c != '\\' && c >= ' '
    ensures DecodeChar([c] + rest) == Ok(c, rest)
  {
    assert ([c] + rest)[1..] == rest;
  }

  lemma ShortEscapeRoundTrip(c: char, rest: string)
    requires |EncodeChar(c)| == 2
    ensures DecodeChar(EncodeChar(c) + rest) == Ok(c, rest)
  {
    var letter := EncodeChar(c)[1];
    assert EncodeChar(c) == ['\\', letter];
    assert (['\\', letter] + rest)[1..] == [letter] + rest;
    assert ([letter] + rest)[1..] == rest;
  }

  lemma ParseStringStep(s: string, c: char, more: string, t: string, after: string)
    requires s != [] && s[0] != '"' && DecodeChar(s) == Ok(c, more)
    requires ParseString(more) == Ok(t, after)
    ensures ParseString(s) == Ok([c] + t, after)
  {
  }

  lemma {:induction false} StringRoundTrip(s: string, rest: string)
    ensures ParseString(EncodeChars(s) + "\"" + rest) == Ok(s, rest)
  {
    if s == [] {
      assert EncodeChars(s) + "\"" + rest == "\"" + rest;
      assert ("\"" + rest)[1..] == rest;
    } else {
      var tail := EncodeChars(s[1..]) + "\"" + rest;
      var text := EncodeChar(s[0]) + tail;
      assert EncodeChars(s) == EncodeChar(s[0]) + EncodeChars(s[1..]);
      hide *;
      Assoc(EncodeChars(s), "\"", rest);
      Assoc(EncodeChars(s[1..]), "\"", rest);
      Assoc(EncodeChar(s[0]), EncodeChars(s[1..]), "\"" + rest);
      CharRoundTrip(s[0], tail);
      StringRoundTrip(s[1..], rest);
      assert text[0] == EncodeChar(s[0])[0];
      ParseStringStep(text, s[0], tail, s[1..], rest);
      assert s == [s[0]] + s[1..];
    }
  }

  lemma ParseQuoted(s: string, rest: string)
    ensures Quote(s) + rest != [] && (Quote(s) + rest)[0] == '"'
    ensures ParseString((Quote(s) + rest)[1..]) == Ok(s, rest)
  {
    assert (Quote(s) + rest)[1..] == EncodeChars(s) + "\"" + rest;
    StringRoundTrip(s, rest);
  }

  /** A quoted string is its own end marker: no quoted string followed by
      anything reads as a different string. */
  lemma QuoteUnambiguous(a: string, x: string, b: string, y: string)
    requires Quote(a) + x == Quote(b) + y
    ensures a == b && x == y
  {
    ParseQuoted(a, x);
    ParseQuoted(b, y);
  }

  // ------------------------------------------------------------ numbers

  /** The longest prefix made of digits. */
  function Digits(s: string): (n: nat)
    ensures n <= |s|
    ensures forall i :: 0 <= i < n ==> IsDigit(s[i])
  {
    if s == [] || !IsDigit(s[0]) then 0 else 1 + Digits(s[1..])
  }

  predicate IsExponent(s: string) {
    s == [] ||
    ((s[0] == 'e' || s[0] == 'E') &&
     var t := if |s| > 1 && (s[1] == '+' || s[1] == '-') then s[2..] else s[1..];
     t != [] && Digits(t) == |t|)
  }

  predicate IsFraction(s: string) {
    if s != [] && s[0] == '.' then
      var n := Digits(s[1..]);
      n > 0 && IsExponent(s[1 + n..])
    else IsExponent(s)
  }

  predicate IsUnsigned(s: string) {
    s != [] && IsDigit(s[0]) &&
    (if s[0] == '0' then IsFraction(s[1..]) else IsFraction(s[Digits(s)..]))
  }

  /** The number grammar of RFC 8259 section 6. */
  predicate IsNumberLiteral(s: string) {
    if s != [] && s[0] == '-' then IsUnsigned(s[1..]) else IsUnsigned(s)
  }

  ghost predicate AllNumberChars(s: string) {
    forall i :: 0 <= i < |s| ==> IsNumberChar(s[i])
  }

  lemma ExponentChars(s: string)
    requires IsExponent(s)
    ensures AllNumberChars(s)
  {
    if s != [] {
      var sign := if |s| > 1 && (s[1] == '+' || s[1] == '-') then 2 else 1;
      forall i | sign <= i < |s| ensures IsNumberChar(s[i]) {
        assert s[sign..][i - sign] == s[i];
      }
    }
  }

  lemma FractionChars(s: string)
    requires IsFraction(s)
    ensures AllNumberChars(s)
  {
    if s != [] && s[0] == '.' {
      var n := Digits(s[1..]);
      ExponentChars(s[1 + n..]);
      forall i | 0 <= i < |s| ensures IsNumberChar(s[i]) {
        if 1 <= i <= n { assert s[1..][i - 1] == s[i]; }
        if n < i { assert s[1 + n..][i - 1 - n] == s[i]; }
      }
    } else {
      ExponentChars(s);
    }
  }

  lemma UnsignedChars(s: string)
    requires IsUnsigned(s)
    ensures AllNumberChars(s)
  {
    var n := if s[0] == '0' then 1 else Digits(s);
    FractionChars(s[n..]);
    forall i | 0 <= i < |s| ensures IsNumberChar(s[i]) {
      if n <= i { assert s[n..][i - n] == s[i]; }
    }
  }

  lemma NumberChars(s: string)
    requires IsNumberLiteral(s)
    ensures s != [] && AllNumberChars(s) && (s[0] == '-' || IsDigit(s[0]))
  {
    if s[0] == '-' {
      UnsignedChars(s[1..]);
      forall i | 1 <= i < |s| ensures IsNumberChar(s[i]) { assert s[1..][i - 1] == s[i]; }
    } else {
      UnsignedChars(s);
    }
  }

  /** The extent of a number token. */
  function NumberLength(s: string): (n: nat)
    ensures n <= |s|
    ensures forall i :: 0 <= i < n ==> IsNumberChar(s[i])
    ensures n < |s| ==> !IsNumberChar(s[n])
  {
    if s == [] || !IsNumberChar(s[0]) then 0 else 1 + NumberLength(s[1..])
  }

  function ParseNumber(f: Float64, s: string): (r: Parsed<Value>)
    requires s != [] && IsNumberChar(s[0])
    ensures r.Ok? ==> |r.rest| < |s|
  {
    var n := NumberLength(s);
    if !IsNumberLiteral(s[..n]) then Fail
    else
      match f(s[..n])
      case None => Fail
      case Some(text) => Ok(Number(text), s[n..])
  }

  /** What Go's float64 conversion guarantees: printing a float64 gives a JSON
      number that reads back as the same float64. */
  ghost predicate Float64Text(f: Float64) {
    forall l :: f(l).Some? ==> IsNumberLiteral(f(l).value) && f(f(l).value) == f(l)
  }

  ghost predicate CanonicalNumber(f: Float64, l: string) {
    IsNumberLiteral(l) && f(l) == Some(l)
  }

  ghost predicate Delimited(rest: string) {
    rest != [] ==> !IsNumberChar(rest[0])
  }

  lemma NumberLengthIs(l: string, rest: string)
    requires AllNumberChars(l) && Delimited(rest)
    ensures NumberLength(l + rest) == |l|
  {
    if l == [] {
      assert l + rest == rest;
    } else {
      assert (l + rest)[1..] == l[1..] + rest;
      NumberLengthIs(l[1..], rest);
    }
  }

  lemma NumberRoundTrip(f: Float64, l: string, rest: string)
    requires CanonicalNumber(f, l) && Delimited(rest)
    ensures l != [] && IsNumberChar(l[0])
    ensures ParseNumber(f, l + rest) == Ok(Number(l), rest)
  {
    NumberChars(l);
    NumberLengthIs(l, rest);
    assert (l + rest)[..|l|] == l && (l + rest)[|l|..] == rest;
  }

  // ------------------------------------------------------------ values

  function SkipSpace(s: string): (r: string)
    ensures |r| <= |s|
    ensures r != [] ==> !IsSpace(r[0])
  {
    if s != [] && IsSpace(s[0]) then SkipSpace(s[1..]) else s
  }

  lemma SkipStep(c: char, rest: string)
    ensures SkipSpace([c] + rest) == if IsSpace(c) then SkipSpace(rest) else [c] + rest
  {
    assert ([c] + rest)[1..] == rest;
  }

  lemma SpaceThen(space: string, c: char, rest: string)
    requires (forall i :: 0 <= i < |space| ==> IsSpace(space[i])) && !IsSpace(c)
    ensures SkipSpace(space + ([c] + rest)) == [c] + rest
  {
    SkipStep(c, rest);
    hide *;
    if space == [] {
      assert space + ([c] + rest) == [c] + rest;
    } else {
      Uncons(space, [c] + rest);
      SkipStep(space[0], space[1..] + ([c] + rest));
      SpaceThen(space[1..], c, rest);
    }
  }

  lemma {:induction false} SkipTwice(text: string)
    ensures SkipSpace(SkipSpace(text)) == SkipSpace(text)
  {
    if text != [] && IsSpace(text[0]) { SkipTwice(text[1..]); }
  }

  function ParseValue(f: Float64, room: nat, text: string): (r: Parsed<Value>)
    ensures r.Ok? ==> |r.rest| < |text|
    decreases |text|, 1
  {
    var s := SkipSpace(text);
    if s == [] then Fail
    else if s[0] == '{' then
      if room == 0 then Fail
      else
        var t := SkipSpace(s[1..]);
        if t != [] && t[0] == '}' then Ok(Obj(map[]), t[1..]) else ParseMembers(f, room - 1, t, map[])
    else if s[0] == '[' then
      if room == 0 then Fail
      else
        var t := SkipSpace(s[1..]);
        if t != [] && t[0] == ']' then Ok(Arr([]), t[1..]) else ParseElems(f, room - 1, t, [])
    else if s[0] == '"' then
      match ParseString(s[1..])
      case Fail => Fail
      case Ok(t, rest) => Ok(Str(t), rest)
    else if IsNumberChar(s[0]) then ParseNumber(f, s)
    else if HasPrefix(s, "true") then Ok(Bool(true), s[4..])
    else if HasPrefix(s, "false") then Ok(Bool(false), s[5..])
    else if HasPrefix(s, "null") then Ok(Null, s[4..])
    else Fail
  }

  /** Object members up to the closing brace; a repeated name keeps the last value. */
  function ParseMembers(f: Float64, room: nat, text: string, acc: map<string, Value>): (r: Parsed<Value>)
    ensures r.Ok? ==> |r.rest| < |text|
    decreases |text|, 0
  {
    var s := SkipSpace(text);
    if s == [] || s[0] != '"' then Fail
    else
      match ParseString(s[1..])
      case Fail => Fail
      case Ok(key, afterKey) =>
        var t := SkipSpace(afterKey);
        if t == [] || t[0] != ':' then Fail
        else
          match ParseValue(f, room, t[1..])
          case Fail => Fail
          case Ok(v, afterValue) =>
            var u := SkipSpace(afterValue);
            if u == [] then Fail
            else if u[0] == '}' then Ok(Obj(acc[key := v]), u[1..])
            else if u[0] == ',' then ParseMembers(f, room, u[1..], acc[key := v])
            else Fail
  }

  function ParseElems(f: Float64, room: nat, text: string, acc: seq<Value>): (r: Parsed<Value>)
    ensures r.Ok? ==> |r.rest| < |text|
    decreases |text|, 2
  {
    match ParseValue(f, room, text)
    case Fail => Fail
    case Ok(v, afterValue) =>
      var u := SkipSpace(afterValue);
      if u == [] then Fail
      else if u[0] == ']' then Ok(Arr(acc + [v]), u[1..])
      else if u[0] == ',' then ParseElems(f, room, u[1..], acc + [v])
      else Fail
  }

  /** `json.Unmarshal` of a whole document into an `interface{}`. */
  function Parse(f: Float64, text: string): (v: Option<Value>) {
    match ParseValue(f, MAX_NESTING, text)
    case Fail => None
    case Ok(v, rest) => if SkipSpace(rest) == [] then Some(v) else None
  }

  // ------------------------------------------------------------ printer

  /** Canonical JSON: object keys sorted, no white space. */
  ghost function Canonical(v: Value): string
    decreases v
  {
    match v
    case Null => "null"
    case Bool(b) => if b then "true" else "false"
    case Number(l) => l
    case Str(s) => Quote(s)
    case Arr(es) => "[" + CanonicalElems(es) + "]"
    case Obj(m) => "{" + CanonicalMembers(v, SortedKeys(m.Keys)) + "}"
  }

  ghost function CanonicalElems(es: seq<Value>): string
    decreases es
  {
    if es == [] then []
    else Canonical(es[0]) + if |es| == 1 then [] else "," + CanonicalElems(es[1..])
  }

  ghost function CanonicalMembers(v: Value, keys: seq<string>): string
    requires v.Obj? && Elements(keys) <= v.m.Keys
    decreases v, |keys|
  {
    if keys == [] then []
    else
      assert keys[0] in Elements(keys);
      Quote(keys[0]) + ":" + Canonical(v.m[keys[0]]) +
      if |keys| == 1 then [] else "," + CanonicalMembers(v, keys[1..])
  }

  /** The values `Parse` can produce: canonical numbers, bounded nesting. */
  ghost predicate Decodable(f: Float64, room: nat, v: Value)
    decreases v
  {
    match v
    case Number(l) => CanonicalNumber(f, l)
    case Arr(es) => room > 0 && forall e :: e in es ==> Decodable(f, room - 1, e)
    case Obj(m) => room > 0 && forall k :: k in m ==> Decodable(f, room - 1, m[k])
    case _ => true
  }

  // ------------------------------------------------------------ decoded values are decodable

  lemma {:induction false} ParsedIsDecodable(f: Float64, room: nat, text: string)
    requires Float64Text(f)
    ensures ParseValue(f, room, text).Ok? ==> Decodable(f, room, ParseValue(f, room, text).value)
    decreases |text|, 1
  {
    var s := SkipSpace(text);
    if s != [] && room > 0 {
      if s[0] == '{' { ParsedMembersDecodable(f, room - 1, SkipSpace(s[1..]), map[]); }
      if s[0] == '[' { ParsedElemsDecodable(f, room - 1, SkipSpace(s[1..]), []); }
    }
  }

  lemma {:induction false} ParsedMembersDecodable(f: Float64, room: nat, text: string, acc: map<string, Value>)
    requires Float64Text(f)
    requires forall k :: k in acc ==> Decodable(f, room, acc[k])
    ensures ParseMembers(f, room, text, acc).Ok? ==> Decodable(f, room + 1, ParseMembers(f, room, text, acc).value)
    decreases |text|, 0
  {
    var s := SkipSpace(text);
    if s != [] && s[0] == '"' && ParseString(s[1..]).Ok? {
      var key := ParseString(s[1..]).value;
      var t := SkipSpace(ParseString(s[1..]).rest);
      if t != [] && t[0] == ':' && ParseValue(f, room, t[1..]).Ok? {
        ParsedIsDecodable(f, room, t[1..]);
        var v := ParseValue(f, room, t[1..]).value;
        var u := SkipSpace(ParseValue(f, room, t[1..]).rest);
        if u != [] && u[0] == ',' {
          ParsedMembersDecodable(f, room, u[1..], acc[key := v]);
        }
      }
    }
  }

  lemma {:induction false} ParsedElemsDecodable(f: Float64, room: nat, text: string, acc: seq<Value>)
    requires Float64Text(f)
    requires forall e :: e in acc ==> Decodable(f, room, e)
    ensures ParseElems(f, room, text, acc).Ok? ==> Decodable(f, room + 1, ParseElems(f, room, text, acc).value)
    decreases |text|, 2
  {
    ParsedIsDecodable(f, room, text);
    if ParseValue(f, room, text).Ok? {
      var v := ParseValue(f, room, text).value;
      var u := SkipSpace(ParseValue(f, room, text).rest);
      if u != [] && u[0] == ',' {
        ParsedElemsDecodable(f, room, u[1..], acc + [v]);
      }
    }
  }

  // ------------------------------------------------------------ the parser undoes the printer

  /** A printed value starts with a character that opens a value. */
  lemma CanonicalStart(f: Float64, room: nat, v: Value)
    requires Decodable(f, room, v)
    ensures Canonical(v) != []
    ensures !IsSpace(Canonical(v)[0]) && Canonical(v)[0] != ']' && Canonical(v)[0] != '}'
  {
    if v.Number? { NumberChars(v.literal); }
  }

  lemma ParseWord(f: Float64, room: nat, word: string, rest: string)
    requires word == "true" || word == "false" || word == "null"
    ensures ParseValue(f, room, word + rest)
         == Ok(if word == "null" then Null else Bool(word == "true"), rest)
  {
    var text := word + rest;
    assert text[0] == word[0];
    assert SkipSpace(text) == text;
    assert text[..|word|] == word && text[|word|..] == rest;
    assert HasPrefix(text, word);
    assert word == "false" ==> !HasPrefix(text, "true") by {
      assert HasPrefix(text, "true") ==> text[..4][0] == 't';
    }
    assert word == "null" ==> !HasPrefix(text, "true") && !HasPrefix(text, "false") by {
      assert HasPrefix(text, "true") ==> text[..4][0] == 't';
      assert HasPrefix(text, "false") ==> text[..5][0] == 'f';
    }
  }

  lemma ParseNumberValue(f: Float64, room: nat, text: string)
    requires text != [] && IsNumberChar(text[0])
    ensures ParseValue(f, room, text) == ParseNumber(f, text)
  {
    assert SkipSpace(text) == text;
  }

  lemma PrintParseNumber(f: Float64, room: nat, l: string, rest: string)
    requires CanonicalNumber(f, l) && Delimited(rest)
    ensures ParseValue(f, room, l + rest) == Ok(Number(l), rest)
  {
    NumberRoundTrip(f, l, rest);
    assert (l + rest)[0] == l[0];
    ParseNumberValue(f, room, l + rest);
  }

  lemma PrintParseStr(f: Float64, room: nat, s: string, rest: string)
    ensures ParseValue(f, room, Quote(s) + rest) == Ok(Str(s), rest)
  {
    ParseQuoted(s, rest);
    assert SkipSpace(Quote(s) + rest) == Quote(s) + rest;
  }

  lemma PrintParseScalar(f: Float64, room: nat, v: Value, rest: string)
    requires !v.Arr? && !v.Obj? && Decodable(f, room, v) && Delimited(rest)
    ensures ParseValue(f, room, Canonical(v) + rest) == Ok(v, rest)
  {
    match v
    case Number(l) => PrintParseNumber(f, room, l, rest);
    case Str(s) => PrintParseStr(f, room, s, rest);
    case _ => ParseWord(f, room, Canonical(v), rest);
  }

  lemma ParseOpen(f: Float64, room: nat, open: char, body: string)
    requires room > 0 && (open == '[' || open == '{')
    requires body != [] && !IsSpace(body[0])
    ensures ParseValue(f, room, [open] + body)
         == if open == '[' then
              if body[0] == ']' then Ok(Arr([]), body[1..]) else ParseElems(f, room - 1, body, [])
            else
              if body[0] == '}' then Ok(Obj(map[]), body[1..]) else ParseMembers(f, room - 1, body, map[])
  {
    assert ([open] + body)[1..] == body;
    assert SkipSpace(body) == body;
    assert SkipSpace([open] + body) == [open] + body;
  }

  lemma {:induction false} PrintParse(f: Float64, room: nat, v: Value, rest: string)
    requires Decodable(f, room, v) && Delimited(rest)
    ensures ParseValue(f, room, Canonical(v) + rest) == Ok(v, rest)
    decreases v
  {
    match v
    case Arr(es) =>
      var body := CanonicalElems(es) + ("]" + rest);
      assert Canonical(v) + rest == "[" + body;
      if es == [] {
        assert body == "]" + rest && body[1..] == rest;
        ParseOpen(f, room, '[', body);
      } else {
        assert es[0] in es;
        CanonicalStart(f, room - 1, es[0]);
        assert body[0] == Canonical(es[0])[0];
        ParseOpen(f, room, '[', body);
        PrintParseElems(f, room - 1, es, [], rest);
        assert [] + es == es;
      }
    case Obj(m) =>
      PrintParseObject(f, room, v, rest);
    case _ =>
      PrintParseScalar(f, room, v, rest);
  }

  lemma ObjectText(v: Value, rest: string)
    requires v.Obj?
    ensures Canonical(v) + rest == "{" + (CanonicalMembers(v, SortedKeys(v.m.Keys)) + ("}" + rest))
  {
  }

  lemma MemberText(v: Value, keys: seq<string>, rest: string)
    requires v.Obj? && keys != [] && Elements(keys) <= v.m.Keys
    ensures keys[0] in v.m && Elements(keys[1..]) <= v.m.Keys
    ensures CanonicalMembers(v, keys) + ("}" + rest)
         == Quote(keys[0]) + (":" + (Canonical(v.m[keys[0]]) + MembersAfter(v, keys, rest)))
    ensures (CanonicalMembers(v, keys) + ("}" + rest))[0] == '"'
    ensures MembersAfter(v, keys, rest)[0] == if |keys| == 1 then '}' else ','
    ensures MembersAfter(v, keys, rest)[1..]
         == if |keys| == 1 then rest else CanonicalMembers(v, keys[1..]) + ("}" + rest)
  {
    assert keys[0] in Elements(keys);
    AfterText(v, keys, rest);
    var more := if |keys| == 1 then [] else "," + CanonicalMembers(v, keys[1..]);
    assert CanonicalMembers(v, keys) == Quote(keys[0]) + ":" + Canonical(v.m[keys[0]]) + more;
    hide *;
    MemberAssoc(keys[0], Canonical(v.m[keys[0]]), more, "}" + rest);
    if |keys| == 1 {
      assert more + ("}" + rest) == "}" + rest;
    } else {
      Assoc(",", CanonicalMembers(v, keys[1..]), "}" + rest);
    }
  }

  lemma AfterText(v: Value, keys: seq<string>, rest: string)
    requires v.Obj? && keys != [] && Elements(keys) <= v.m.Keys
    ensures Elements(keys[1..]) <= v.m.Keys
    ensures MembersAfter(v, keys, rest)
         == if |keys| == 1 then "}" + rest else "," + (CanonicalMembers(v, keys[1..]) + ("}" + rest))
    ensures MembersAfter(v, keys, rest)[0] == if |keys| == 1 then '}' else ','
    ensures MembersAfter(v, keys, rest)[1..]
         == if |keys| == 1 then rest else CanonicalMembers(v, keys[1..]) + ("}" + rest)
  {
    hide CanonicalMembers;
  }

  lemma MemberAssoc(key: string, v: string, more: string, rest: string)
    ensures Quote(key) + ":" + v + more + rest == Quote(key) + (":" + (v + (more + rest)))
    ensures (Quote(key) + ":" + v + more + rest)[0] == '"'
  {
    Assoc(Quote(key) + ":" + v, more, rest);
    Assoc(Quote(key) + ":", v, more + rest);
    Assoc(Quote(key), ":", v + (more + rest));
  }

  /** What follows the first member of an object's text. */
  ghost function MembersAfter(v: Value, keys: seq<string>, rest: string): (s: string)
    requires v.Obj? && keys != [] && Elements(keys) <= v.m.Keys
    ensures s != [] && !IsNumberChar(s[0])
  {
    if |keys| == 1 then "}" + rest else "," + (CanonicalMembers(v, keys[1..]) + ("}" + rest))
  }

  lemma ParseEmptyObject(f: Float64, room: nat, v: Value, rest: string)
    requires v.Obj? && room > 0 && v.m.Keys == {}
    ensures ParseValue(f, room, Canonical(v) + rest) == Ok(v, rest)
  {
    var body := "}" + rest;
    assert Canonical(v) + rest == "{" + body;
    assert v.m == map[];
    assert body[1..] == rest;
    ParseOpen(f, room, '{', body);
  }

  lemma ParseWholeObject(f: Float64, room: nat, body: string, v: Value, rest: string)
    requires room > 0 && body != [] && body[0] == '"'
    requires ParseMembers(f, room - 1, body, map[]) == Ok(v, rest)
    ensures ParseValue(f, room, "{" + body) == Ok(v, rest)
  {
    ParseOpen(f, room, '{', body);
  }

  lemma RestrictAll(m: map<string, Value>)
    ensures map[] + Restrict(m, SortedKeys(m.Keys)) == m
  {
  }

  lemma {:induction false} PrintParseObject(f: Float64, room: nat, v: Value, rest: string)
    requires v.Obj? && Decodable(f, room, v)
    ensures ParseValue(f, room, Canonical(v) + rest) == Ok(v, rest)
    decreases v, |SortedKeys(v.m.Keys)| + 1
  {
    assert room > 0 && forall k :: k in v.m ==> Decodable(f, room - 1, v.m[k]);
    hide *;
    var keys := SortedKeys(v.m.Keys);
    ElementsEmpty(keys);
    if keys == [] {
      ParseEmptyObject(f, room, v, rest);
    } else {
      var body := CanonicalMembers(v, keys) + ("}" + rest);
      MemberText(v, keys, rest);
      assert ParseMembers(f, room - 1, body, map[]) == Ok(v, rest) by {
        PrintParseMembers(f, room - 1, v, keys, map[], rest);
        RestrictAll(v.m);
      }
      ParseWholeObject(f, room, body, v, rest);
      ObjectText(v, rest);
    }
  }

  lemma ParseElemsStep(f: Float64, room: nat, text: string, v: Value, after: string, acc: seq<Value>)
    requires ParseValue(f, room, text) == Ok(v, after)
    requires after != [] && (after[0] == ']' || after[0] == ',')
    ensures ParseElems(f, room, text, acc)
         == if after[0] == ']' then Ok(Arr(acc + [v]), after[1..]) else ParseElems(f, room, after[1..], acc + [v])
  {
    assert SkipSpace(after) == after;
  }

  /** What follows the first element of an array's text. */
  ghost function ElemsAfter(es: seq<Value>, rest: string): (s: string)
    requires es != []
    ensures s != [] && !IsNumberChar(s[0])
  {
    if |es| == 1 then "]" + rest else "," + (CanonicalElems(es[1..]) + ("]" + rest))
  }

  lemma ElemsText(es: seq<Value>, rest: string)
    requires es != []
    ensures CanonicalElems(es) + ("]" + rest) == Canonical(es[0]) + ElemsAfter(es, rest)
    ensures ElemsAfter(es, rest)[0] == if |es| == 1 then ']' else ','
    ensures ElemsAfter(es, rest)[1..] == if |es| == 1 then rest else CanonicalElems(es[1..]) + ("]" + rest)
  {
    var more := if |es| == 1 then [] else "," + CanonicalElems(es[1..]);
    assert CanonicalElems(es) == Canonical(es[0]) + more;
    assert ElemsAfter(es, rest)
        == if |es| == 1 then "]" + rest else "," + (CanonicalElems(es[1..]) + ("]" + rest));
    hide *;
    Assoc(Canonical(es[0]), more, "]" + rest);
    if |es| > 1 { Assoc(",", CanonicalElems(es[1..]), "]" + rest); }
  }

  lemma AppendHead<T>(acc: seq<T>, es: seq<T>)
    requires es != []
    ensures acc + es == acc + [es[0]] + es[1..]
    ensures |es| == 1 ==> acc + es == acc + [es[0]]
  {
    assert es == [es[0]] + es[1..];
  }

  lemma {:induction false} PrintParseElems(f: Float64, room: nat, es: seq<Value>, acc: seq<Value>, rest: string)
    requires es != [] && forall e :: e in es ==> Decodable(f, room, e)
    ensures ParseElems(f, room, CanonicalElems(es) + ("]" + rest), acc) == Ok(Arr(acc + es), rest)
    decreases es
  {
    hide *;
    ElemsText(es, rest);
    var after := ElemsAfter(es, rest);
    assert es[0] in es && forall e :: e in es[1..] ==> e in es;
    PrintParse(f, room, es[0], after);
    ParseElemsStep(f, room, Canonical(es[0]) + after, es[0], after, acc);
    AppendHead(acc, es);
    if |es| > 1 {
      PrintParseElems(f, room, es[1..], acc + [es[0]], rest);
    }
  }

  ghost function Restrict(m: map<string, Value>, keys: seq<string>): map<string, Value>
    requires Elements(keys) <= m.Keys
  {
    map k | k in Elements(keys) :: m[k]
  }

  lemma ParseMembersStep(
    f: Float64, room: nat, text: string, key: string, valueText: string, v: Value, after: string,
    acc: map<string, Value>)
    requires text != [] && text[0] == '"' && ParseString(text[1..]) == Ok(key, ":" + valueText)
    requires ParseValue(f, room, valueText) == Ok(v, after)
    requires after != [] && (after[0] == '}' || after[0] == ',')
    ensures ParseMembers(f, room, text, acc)
         == if after[0] == '}' then Ok(Obj(acc[key := v]), after[1..])
            else ParseMembers(f, room, after[1..], acc[key := v])
  {
    assert SkipSpace(text) == text;
    assert SkipSpace(":" + valueText) == ":" + valueText && (":" + valueText)[1..] == valueText;
    assert SkipSpace(after) == after;
  }

  lemma {:induction false} PrintParseMembers(
    f: Float64, room: nat, v: Value, keys: seq<string>, acc: map<string, Value>, rest: string)
    requires v.Obj? && keys != [] && Elements(keys) <= v.m.Keys
    requires forall k :: k in v.m ==> Decodable(f, room, v.m[k])
    ensures ParseMembers(f, room, CanonicalMembers(v, keys) + ("}" + rest), acc)
         == Ok(Obj(acc + Restrict(v.m, keys)), rest)
    decreases v, |keys|
  {
    hide *;
    MemberText(v, keys, rest);
    var key := keys[0];
    var after := MembersAfter(v, keys, rest);
    var tail := Canonical(v.m[key]) + after;
    var text := Quote(key) + (":" + tail);
    ParseQuoted(key, ":" + tail);
    PrintParse(f, room, v.m[key], after);
    var acc' := acc[key := v.m[key]];
    ParseMembersStep(f, room, text, key, tail, v.m[key], after, acc);
    if |keys| == 1 {
      RestrictCons(v.m, keys, acc);
    } else {
      PrintParseMembers(f, room, v, keys[1..], acc', rest);
      RestrictCons(v.m, keys, acc);
    }
  }

  lemma RestrictCons(m: map<string, Value>, keys: seq<string>, acc: map<string, Value>)
    requires keys != [] && Elements(keys) <= m.Keys
    ensures keys[0] in m && Elements(keys[1..]) <= m.Keys
    ensures acc[keys[0] := m[keys[0]]] + Restrict(m, keys[1..]) == acc + Restrict(m, keys)
    ensures |keys| == 1 ==> acc[keys[0] := m[keys[0]]] == acc + Restrict(m, keys)
  {
    assert keys[0] in Elements(keys);
    assert Elements(keys) == {keys[0]} + Elements(keys[1..]);
  }

  /** Decoding what the canonical printer wrote gives the value back. */
  lemma RoundTrip(f: Float64, v: Value)
    requires Decodable(f, MAX_NESTING, v)
    ensures Parse(f, Canonical(v)) == Some(v)
  {
    PrintParse(f, MAX_NESTING, v, []);
    assert Canonical(v) + [] == Canonical(v);
  }

  // ------------------------------------------------------------ the writer

  /** The `bytes.Buffer` the printer appends to. */
  class Buffer {
    var data: string

    constructor ()
      ensures data == []
    {
      data := [];
    }

    method Write(s: string)
      modifies this
      ensures data == old(data) + s
    {
      data := data + s;
    }
  }

  method WriteJSONScalar(buf: Buffer, v: Value)
    requires !v.Arr? && !v.Obj?
    modifies buf
    ensures buf.data == old(buf.data) + Canonical(v)
  {
    match v
    case Null => buf.Write("null");
    case Bool(b) => buf.Write(if b then "true" else "false");
    case Number(l) => buf.Write(l);
    case Str(s) => buf.Write(Quote(s));
  }

  lemma Bracketed(start: string, open: string, body: string, close: string)
    ensures start + open + body + close == start + (open + body + close)
  {
  }

  /** Appends the canonical text of `v`, sorting each object's keys. */
  method WriteCanonical(buf: Buffer, v: Value)
    modifies buf
    ensures buf.data == old(buf.data) + Canonical(v)
    decreases v, 1
  {
    match v
    case Obj(m) =>
      ghost var start := buf.data;
      buf.Write("{");
      WriteMembers(buf, v);
      buf.Write("}");
      Bracketed(start, "{", CanonicalMembers(v, SortedKeys(m.Keys)), "}");
    case Arr(es) =>
      ghost var start := buf.data;
      buf.Write("[");
      WriteElems(buf, es);
      buf.Write("]");
      Bracketed(start, "[", CanonicalElems(es), "]");
    case _ =>
      WriteJSONScalar(buf, v);
  }

  method WriteMember(buf: Buffer, comma: bool, key: string, v: Value)
    modifies buf
    ensures buf.data == old(buf.data) + (if comma then "," else []) + Quote(key) + ":" + Canonical(v)
    decreases v, 2
  {
    assert Canonical(Str(key)) == Quote(key);
    hide *;
    if comma { buf.Write(","); }
    WriteJSONScalar(buf, Str(key));
    buf.Write(":");
    WriteCanonical(buf, v);
  }

  lemma MembersStep(v: Value, keys: seq<string>, i: nat, data: string)
    requires v.Obj? && i < |keys| && Elements(keys[i..]) <= v.m.Keys
    ensures keys[i] in v.m && Elements(keys[i + 1..]) <= v.m.Keys
    ensures data + Pending(i, |keys|) + CanonicalMembers(v, keys[i..])
         == data + (if i > 0 then "," else []) + Quote(keys[i]) + ":" + Canonical(v.m[keys[i]])
            + Pending(i + 1, |keys|) + CanonicalMembers(v, keys[i + 1..])
  {
    var here := keys[i..];
    assert here[0] == keys[i] && keys[i] in Elements(here);
    assert here[1..] == keys[i + 1..];
    assert forall x :: x in keys[i + 1..] ==> x in here;
    var more := if |here| == 1 then [] else "," + CanonicalMembers(v, here[1..]);
    assert more == Pending(i + 1, |keys|) + CanonicalMembers(v, keys[i + 1..]);
    JoinMember(data + Pending(i, |keys|), Quote(keys[i]), Canonical(v.m[keys[i]]), more);
    Assoc(data + Pending(i, |keys|) + Quote(keys[i]) + ":" + Canonical(v.m[keys[i]]),
          Pending(i + 1, |keys|), CanonicalMembers(v, keys[i + 1..]));
  }

  lemma MembersEnds(v: Value, keys: seq<string>, data: string)
    requires v.Obj? && Elements(keys) <= v.m.Keys
    ensures Elements(keys[0..]) <= v.m.Keys && Elements(keys[|keys|..]) <= v.m.Keys
    ensures data + Pending(0, |keys|) + CanonicalMembers(v, keys[0..]) == data + CanonicalMembers(v, keys)
    ensures data + Pending(|keys|, |keys|) + CanonicalMembers(v, keys[|keys|..]) == data
  {
    assert keys[0..] == keys && keys[|keys|..] == [];
    assert Elements<string>([]) == {} && CanonicalMembers(v, []) == [];
    assert Pending(0, |keys|) == [] && Pending(|keys|, |keys|) == [];
    hide *;
    NothingAdded(data);
  }

  lemma JoinMember(data: string, key: string, v: string, more: string)
    ensures data + (key + ":" + v + more) == data + key + ":" + v + more
  {
  }

  method WriteMembers(buf: Buffer, v: Value)
    requires v.Obj?
    modifies buf
    ensures buf.data == old(buf.data) + CanonicalMembers(v, SortedKeys(v.m.Keys))
    decreases v, 0
  {
    hide *;
    var keys := CollectKeys(v.m);
    keys := SortStrings(keys);
    ghost var all := buf.data + CanonicalMembers(v, keys);
    MembersEnds(v, keys, buf.data);
    for i := 0 to |keys|
      invariant Elements(keys[i..]) <= v.m.Keys
      invariant buf.data + Pending(i, |keys|) + CanonicalMembers(v, keys[i..]) == all
    {
      MembersStep(v, keys, i, buf.data);
      WriteMember(buf, i > 0, keys[i], v.m[keys[i]]);
    }
    MembersEnds(v, keys, buf.data);
  }

  lemma ElemsStep(es: seq<Value>, i: nat, data: string)
    requires i < |es|
    ensures data + Pending(i, |es|) + CanonicalElems(es[i..])
         == data + (if i > 0 then "," else []) + Canonical(es[i]) + Pending(i + 1, |es|) + CanonicalElems(es[i + 1..])
  {
    var here := es[i..];
    assert here[1..] == es[i + 1..];
    var more := if |here| == 1 then [] else "," + CanonicalElems(here[1..]);
    assert more == Pending(i + 1, |es|) + CanonicalElems(es[i + 1..]);
    Assoc(data + Pending(i, |es|), Canonical(es[i]), more);
    Assoc(data + Pending(i, |es|) + Canonical(es[i]), Pending(i + 1, |es|), CanonicalElems(es[i + 1..]));
  }

  lemma ElemsEnds(es: seq<Value>, data: string)
    ensures data + Pending(0, |es|) + CanonicalElems(es[0..]) == data + CanonicalElems(es)
    ensures data + Pending(|es|, |es|) + CanonicalElems(es[|es|..]) == data
  {
    assert es[0..] == es && es[|es|..] == [];
  }

  method WriteElems(buf: Buffer, es: seq<Value>)
    modifies buf
    ensures buf.data == old(buf.data) + CanonicalElems(es)
    decreases es
  {
    hide *;
    ghost var all := buf.data + CanonicalElems(es);
    ElemsEnds(es, buf.data);
    for i := 0 to |es|
      invariant buf.data + Pending(i, |es|) + CanonicalElems(es[i..]) == all
    {
      ElemsStep(es, i, buf.data);
      if i > 0 { buf.Write(","); }
      WriteCanonical(buf, es[i]);
    }
    ElemsEnds(es, buf.data);
  }

  /** The comma still owed before item `i` of `n`. */
  function Pending(i: nat, n: nat): string {
    if 0 < i < n then "," else []
  }
}
