/** The local vault (pkg/vault/vault.go): a map of secrets kept in one file, sealed
    under a key, with migration of plaintext files. The cipher is any authenticated
    encryption (RFC 5116 section 2); a file is a sequence of characters; a write that
    reports an error may have left the file alone, a beginning of the new text, or all
    of it. */
module Vault {
  import opened Text
  import opened Json

  // ------------------------------------------------------------ the cipher

  /** A key derived by SHA-256, kept symbolic. */
  datatype Key = Sha256Key(encKey: string)

  const NONCE_SIZE := 12

  type Nonce = s: string | |s| == NONCE_SIZE witness "............"

  datatype Aead = Aead(
    seal: (Key, Nonce, string) -> string,
    open: (Key, Nonce, string) -> Option<string>)

  /** Opening gives back what was sealed under the same key and nonce, accepts nothing
      else, and accepts nothing sealed under another key, nor a part of it cut short. */
  ghost predicate Sound(c: Aead) {
    && (forall k, n, p :: c.open(k, n, c.seal(k, n, p)) == Some(p))
    && (forall k, n, x :: c.open(k, n, x).Some? ==> x == c.seal(k, n, c.open(k, n, x).value))
    && (forall k, k', n, p :: k != k' ==> c.open(k', n, c.seal(k, n, p)) == None)
    && (forall k, n, p, i :: 0 <= i < |c.seal(k, n, p)| ==> c.open(k, n, c.seal(k, n, p)[..i]) == None)
  }

  /** There is such a cipher: the quoted key and the quoted text. */
  function Quoting(): Aead {
    Aead((k: Key, n: Nonce, p: string) => Quote(k.encKey) + Quote(p),
         (k: Key, n: Nonce, x: string) => Unquoted(k.encKey, x))
  }

  function Unquoted(key: string, x: string): Option<string> {
    var q := Quote(key);
    if !HasPrefix(x, q) || x[|q|..] == [] then None
    else
      match ParseString(x[|q|..][1..])
      case Ok(p, rest) => if x == q + Quote(p) then Some(p) else None
      case Fail => None
  }

  lemma UnquotedExactly(key: string, x: string)
    ensures forall p :: Unquoted(key, x) == Some(p) <==> x == Quote(key) + Quote(p)
  {
    var q := Quote(key);
    forall p | x == q + Quote(p) ensures Unquoted(key, x) == Some(p) {
      assert x[..|q|] == q && x[|q|..] == Quote(p);
      ParseQuoted(p, []);
      assert Quote(p) + [] == Quote(p);
    }
  }

  lemma NotOther(key: string, key': string, p: string)
    requires key != key'
    ensures Unquoted(key', Quote(key) + Quote(p)) == None
  {
    var x := Quote(key) + Quote(p);
    UnquotedExactly(key', x);
    if r :| Unquoted(key', x) == Some(r) {
      QuoteUnambiguous(key, Quote(p), key', Quote(r));
    }
  }

  lemma NotShort(key: string, p: string, i: nat)
    requires i < |Quote(key) + Quote(p)|
    ensures Unquoted(key, (Quote(key) + Quote(p))[..i]) == None
  {
    var x := Quote(key) + Quote(p);
    UnquotedExactly(key, x[..i]);
    hide *;
    if Unquoted(key, x[..i]).Some? {
      var r := Unquoted(key, x[..i]).value;
      assert x == x[..i] + x[i..];
      Assoc(Quote(key), Quote(r), x[i..]);
      QuoteUnambiguous(key, Quote(p), key, Quote(r) + x[i..]);
      assert Quote(p) == Quote(p) + [];
      QuoteUnambiguous(p, [], r, x[i..]);
    }
  }

  lemma SoundExists()
    ensures Sound(Quoting())
  {
    var c := Quoting();
    hide Quote, Unquoted;
    forall k, n: Nonce, p ensures c.open(k, n, c.seal(k, n, p)) == Some(p) {
      UnquotedExactly(k.encKey, c.seal(k, n, p));
    }
    forall k, n: Nonce, x | c.open(k, n, x).Some? ensures x == c.seal(k, n, c.open(k, n, x).value) {
      UnquotedExactly(k.encKey, x);
    }
    forall k, k', n: Nonce, p | k != k' ensures c.open(k', n, c.seal(k, n, p)) == None {
      NotOther(k.encKey, k'.encKey, p);
    }
    forall k, n: Nonce, p, i | 0 <= i < |c.seal(k, n, p)| ensures c.open(k, n, c.seal(k, n, p)[..i]) == None {
      NotShort(k.encKey, p, i);
    }
  }

  // ------------------------------------------------------------ the document

  /** The map of secrets; `None` is Go's nil map. */
  type Secrets = Option<map<string, string>>

  /** In a document of strings any number is an error, so no float64 is ever needed. */
  const NO_NUMBERS: Float64 := l => None

  /** One member's value: a string, or null for the empty string. */
  function DecodeSecret(text: string): (r: Parsed<string>)
    ensures r.Ok? ==> |r.rest| < |text|
  {
    match ParseValue(NO_NUMBERS, MAX_NESTING - 1, text)
    case Ok(Str(s), rest) => Ok(s, rest)
    case Ok(Null, rest) => Ok([], rest)
    case _ => Fail
  }

  /** Members up to the closing brace; any value of another type spoils the document,
      even under a name that is given again. */
  function DecodeMembers(text: string, acc: map<string, string>): (r: Parsed<map<string, string>>)
    ensures r.Ok? ==> |r.rest| < |text|
    decreases |text|
  {
    var s := SkipSpace(text);
    if s == [] || s[0] != '"' then Fail
    else
      match ParseString(s[1..])
      case Fail => Fail
      case Ok(key, afterKey) =>
        var t := SkipSpace(afterKey);
        if t == [] || t[0] != ':' then Fail
        else
          match DecodeSecret(t[1..])
          case Fail => Fail
          case Ok(v, afterValue) =>
            var u := SkipSpace(afterValue);
            if u == [] then Fail
            else if u[0] == '}' then Ok(acc[key := v], u[1..])
            else if u[0] == ',' then DecodeMembers(u[1..], acc[key := v])
            else Fail
  }

  /** `json.Unmarshal` of a document into an empty `map[string]string`. */
  function DecodeSecrets(text: string): Option<Secrets> {
    var s := SkipSpace(text);
    if HasPrefix(s, "null") && SkipSpace(s[4..]) == [] then Some(None)
    else if s == [] || s[0] != '{' then None
    else
      var t := SkipSpace(s[1..]);
      if t != [] && t[0] == '}' then (if SkipSpace(t[1..]) == [] then Some(Some(map[])) else None)
      else
        match DecodeMembers(t, map[])
        case Fail => None
        case Ok(m, rest) => if SkipSpace(rest) == [] then Some(Some(m)) else None
  }

  function Line(name: string, value: string): string {
    "\n  " + (Quote(name) + (": " + Quote(value)))
  }

  function Lines(m: map<string, string>, keys: seq<string>): string
    requires forall k :: k in keys ==> k in m
  {
    if keys == [] then []
    else Line(keys[0], m[keys[0]]) + (if |keys| == 1 then [] else ",") + Lines(m, keys[1..])
  }

  lemma SortedKeysIn(m: map<string, string>)
    ensures forall k :: k in SortedKeys(m.Keys) ==> k in m
  {
    assert forall k :: k in SortedKeys(m.Keys) ==> k in Elements(SortedKeys(m.Keys));
  }

  /** `json.MarshalIndent` with two spaces. */
  ghost function Document(secrets: Secrets): string {
    match secrets
    case None => "null"
    case Some(m) =>
      if m == map[] then "{}"
      else
        SortedKeysIn(m);
        "{" + Lines(m, SortedKeys(m.Keys)) + "\n}"
  }

  method MarshalIndent(secrets: Secrets) returns (text: string)
    ensures text == Document(secrets)
  {
    if secrets.None? {
      return "null";
    }
    var m := secrets.value;
    if m == map[] {
      return "{}";
    }
    var keys := CollectKeys(m);
    keys := SortStrings(keys);
    SortedKeysIn(m);
    ghost var all := "{" + Lines(m, keys);
    LinesEnds(m, keys);
    text := "{";
    for i := 0 to |keys|
      invariant text + Lines(m, keys[i..]) == all
    {
      hide SortedKeys;
      LinesStep(m, keys, i, text);
      text := text + Line(keys[i], m[keys[i]]) + if i + 1 < |keys| then "," else [];
    }
    LinesEnds(m, keys);
    assert text + [] == text;
    text := text + "\n}";
  }

  lemma LinesEnds(m: map<string, string>, keys: seq<string>)
    requires forall k :: k in keys ==> k in m
    ensures keys[0..] == keys && keys[|keys|..] == [] && Lines(m, []) == []
  {
  }

  lemma LinesStep(m: map<string, string>, keys: seq<string>, i: nat, text: string)
    requires i < |keys| && forall k :: k in keys ==> k in m
    ensures text + Lines(m, keys[i..])
         == text + Line(keys[i], m[keys[i]]) + (if i + 1 < |keys| then "," else []) + Lines(m, keys[i + 1..])
  {
    assert keys[i..][1..] == keys[i + 1..];
    var line, comma, rest := Line(keys[i], m[keys[i]]), if i + 1 < |keys| then "," else [], Lines(m, keys[i + 1..]);
    assert Lines(m, keys[i..]) == line + comma + rest;
    hide *;
    assert text + (line + comma + rest) == text + line + comma + rest;
  }

  // ------------------------------------------------------------ the document reads back

  lemma QuoteHead(s: string, rest: string)
    ensures exists body :: Quote(s) + rest == ['"'] + body && ParseString(body) == Ok(s, rest)
  {
    ParseQuoted(s, rest);
    assert Quote(s) + rest == ['"'] + (Quote(s) + rest)[1..];
  }

  lemma SecretReads(value: string, after: string)
    ensures DecodeSecret(" " + (Quote(value) + after)) == Ok(value, after)
  {
    var text := Quote(value) + after;
    PrintParseStr(NO_NUMBERS, MAX_NESTING - 1, value, after);
    SkipStep(' ', text);
    SkipTwice(text);
    assert ParseValue(NO_NUMBERS, MAX_NESTING - 1, " " + text) == ParseValue(NO_NUMBERS, MAX_NESTING - 1, text) by {
      SpaceBefore(" " + text, text);
    }
  }

  lemma SpaceBefore(a: string, b: string)
    requires SkipSpace(a) == SkipSpace(b)
    ensures ParseValue(NO_NUMBERS, MAX_NESTING - 1, a) == ParseValue(NO_NUMBERS, MAX_NESTING - 1, b)
  {
  }

  lemma LineText(name: string, value: string, after: string)
    ensures Line(name, value) + after == "\n  " + (Quote(name) + ([':'] + (" " + (Quote(value) + after))))
  {
    LineParts(Quote(name), Quote(value), after);
  }

  lemma LineParts(n: string, v: string, after: string)
    ensures "\n  " + (n + (": " + v)) + after == "\n  " + (n + ([':'] + (" " + (v + after))))
  {
    hide *;
    Assoc("\n  ", n + (": " + v), after);
    Assoc(n, ": " + v, after);
    Assoc(": ", v, after);
    Assoc([':'], " ", v + after);
    assert [':'] + " " == ": ";
  }

  /** One line of a document, read by the decoder. */
  lemma MemberReads(name: string, value: string, space: string, c: char, rest: string, acc: map<string, string>)
    requires forall i :: 0 <= i < |space| ==> IsSpace(space[i])
    requires c == ',' || c == '}'
    ensures DecodeMembers(Line(name, value) + (space + ([c] + rest)), acc)
         == if c == '}' then Ok(acc[name := value], rest) else DecodeMembers(rest, acc[name := value])
  {
    var after := space + ([c] + rest);
    var tail := " " + (Quote(value) + after);
    Spaces(c);
    hide *;
    LineText(name, value, after);
    var body :| Quote(name) + ([':'] + tail) == ['"'] + body && ParseString(body) == Ok(name, [':'] + tail)
      by { QuoteHead(name, [':'] + tail); }
    SpaceThen("\n  ", '"', body);
    SecretReads(value, after);
    SpaceThen(space, c, rest);
    MemberStep("\n  " + (['"'] + body), body, name, tail, value, after, c, rest, acc);
  }

  lemma Spaces(c: char)
    ensures IsSpace('\n') && IsSpace(' ') && !IsSpace('"')
    ensures c == ',' || c == '}' ==> !IsSpace(c)
  {
  }

  lemma MemberStep(text: string, body: string, name: string, tail: string, value: string, after: string,
                   c: char, rest: string, acc: map<string, string>)
    requires SkipSpace(text) == ['"'] + body && ParseString(body) == Ok(name, [':'] + tail)
    requires DecodeSecret(tail) == Ok(value, after) && SkipSpace(after) == [c] + rest
    requires c == ',' || c == '}'
    ensures DecodeMembers(text, acc)
         == if c == '}' then Ok(acc[name := value], rest) else DecodeMembers(rest, acc[name := value])
  {
    assert (['"'] + body)[1..] == body;
    assert SkipSpace([':'] + tail) == [':'] + tail && ([':'] + tail)[1..] == tail;
    assert ([c] + rest)[1..] == rest;
  }

  function Chosen(m: map<string, string>, keys: seq<string>): map<string, string>
    requires forall k :: k in keys ==> k in m
  {
    map k | k in Elements(keys) :: m[k]
  }

  lemma ChosenCons(m: map<string, string>, keys: seq<string>, acc: map<string, string>)
    requires keys != [] && forall k :: k in keys ==> k in m
    ensures acc[keys[0] := m[keys[0]]] + Chosen(m, keys[1..]) == acc + Chosen(m, keys)
    ensures |keys| == 1 ==> acc[keys[0] := m[keys[0]]] == acc + Chosen(m, keys)
  {
    assert Elements(keys) == {keys[0]} + Elements(keys[1..]);
  }

  lemma LinesText(m: map<string, string>, keys: seq<string>, rest: string)
    requires keys != [] && forall k :: k in keys ==> k in m
    ensures Lines(m, keys) + ("\n}" + rest)
         == if |keys| == 1 then Line(keys[0], m[keys[0]]) + ("\n" + (['}'] + rest))
            else Line(keys[0], m[keys[0]]) + ([] + ([','] + (Lines(m, keys[1..]) + ("\n}" + rest))))
  {
    var line, more := Line(keys[0], m[keys[0]]), Lines(m, keys[1..]);
    assert Lines(m, keys) == line + (if |keys| == 1 then [] else ",") + more;
    assert |keys| == 1 ==> more == [];
    hide *;
    Closing(rest);
    if |keys| == 1 {
      NothingAdded(line);
    } else {
      LineMore(line, more, "\n}" + rest);
    }
  }

  lemma Closing(rest: string)
    ensures "\n}" + rest == "\n" + (['}'] + rest)
  {
  }

  lemma LineMore(line: string, more: string, after: string)
    ensures line + "," + more + after == line + ([] + ([','] + (more + after)))
  {
    Assoc(line + ",", more, after);
    Assoc(line, ",", more + after);
    assert [] + ([','] + (more + after)) == [','] + (more + after);
  }

  lemma {:induction false} LinesRead(m: map<string, string>, keys: seq<string>, acc: map<string, string>, rest: string)
    requires keys != [] && forall k :: k in keys ==> k in m
    ensures DecodeMembers(Lines(m, keys) + ("\n}" + rest), acc) == Ok(acc + Chosen(m, keys), rest)
    decreases |keys|
  {
    hide *;
    LinesText(m, keys, rest);
    ChosenCons(m, keys, acc);
    Spaces(',');
    if |keys| == 1 {
      MemberReads(keys[0], m[keys[0]], "\n", '}', rest, acc);
    } else {
      MemberReads(keys[0], m[keys[0]], [], ',', Lines(m, keys[1..]) + ("\n}" + rest), acc);
      LinesRead(m, keys[1..], acc[keys[0] := m[keys[0]]], rest);
    }
  }

  /** Members may be read from where their leading space ends. */
  lemma MembersTrimmed(text: string, acc: map<string, string>)
    ensures DecodeMembers(SkipSpace(text), acc) == DecodeMembers(text, acc)
  {
    SkipTwice(text);
  }

  lemma OpenDocument(members: string)
    requires SkipSpace(members) != [] && SkipSpace(members)[0] == '"'
    ensures DecodeSecrets(['{'] + members)
         == match DecodeMembers(members, map[])
            case Fail => None
            case Ok(m, rest) => if SkipSpace(rest) == [] then Some(Some(m)) else None
  {
    SkipStep('{', members);
    NotPrefix(['{'] + members, "null");
    MembersTrimmed(members, map[]);
    assert (['{'] + members)[1..] == members;
    hide SkipSpace, DecodeMembers, HasPrefix;
  }

  lemma NotPrefix(s: string, prefix: string)
    ensures s != [] && prefix != [] && s[0] != prefix[0] ==> !HasPrefix(s, prefix)
    ensures HasPrefix(s, prefix) && prefix != [] ==> s != [] && s[0] == prefix[0]
  {
    if HasPrefix(s, prefix) && prefix != [] {
      assert s[..|prefix|][0] == s[0];
    }
  }

  lemma LinesStart(m: map<string, string>, keys: seq<string>, rest: string)
    requires keys != [] && forall k :: k in keys ==> k in m
    ensures SkipSpace(Lines(m, keys) + rest) != [] && SkipSpace(Lines(m, keys) + rest)[0] == '"'
  {
    var name, value := keys[0], m[keys[0]];
    var after := (if |keys| == 1 then [] else ",") + Lines(m, keys[1..]) + rest;
    assert Lines(m, keys) == Line(name, value) + (if |keys| == 1 then [] else ",") + Lines(m, keys[1..]);
    Spaces(',');
    hide *;
    Assoc(Line(name, value), if |keys| == 1 then [] else ",", Lines(m, keys[1..]));
    Assoc(Line(name, value), (if |keys| == 1 then [] else ",") + Lines(m, keys[1..]), rest);
    LineText(name, value, after);
    var more := [':'] + (" " + (Quote(value) + after));
    var body :| Quote(name) + more == ['"'] + body && ParseString(body) == Ok(name, more) by { QuoteHead(name, more); }
    SpaceThen("\n  ", '"', body);
  }

  lemma ChosenAll(m: map<string, string>)
    requires forall k :: k in SortedKeys(m.Keys) ==> k in m
    ensures map[] + Chosen(m, SortedKeys(m.Keys)) == m
  {
  }

  /** Decoding the document written for a map of secrets gives the map back. */
  lemma DocumentReads(secrets: Secrets)
    ensures DecodeSecrets(Document(secrets)) == Some(secrets)
  {
    match secrets
    case None =>
      assert SkipSpace("null") == "null" && "null"[4..] == [];
    case Some(m) =>
      if m == map[] {
        assert SkipSpace("{}") == "{}" && "{}"[1..] == "}" && SkipSpace("}") == "}" && "}"[1..] == [];
      } else {
        SortedKeysIn(m);
        MembersRead(m, SortedKeys(m.Keys));
        ChosenAll(m);
      }
  }

  lemma MembersRead(m: map<string, string>, keys: seq<string>)
    requires m != map[] && Elements(keys) == m.Keys && forall k :: k in keys ==> k in m
    ensures DecodeSecrets("{" + Lines(m, keys) + "\n}") == Some(Some(map[] + Chosen(m, keys)))
  {
    var k :| k in m;
    assert k in Elements(keys) && keys != [];
    var members := Lines(m, keys) + ("\n}" + []);
    assert "{" + Lines(m, keys) + "\n}" == ['{'] + members;
    assert SkipSpace([]) == [];
    hide *;
    LinesStart(m, keys, "\n}" + []);
    LinesRead(m, keys, map[], []);
    OpenDocument(members);
  }

  /** What the decoder accepts is a JSON object (or null) whose members are strings,
      or nulls read as empty strings. */
  ghost predicate StringsOf(v: Value, m: map<string, string>) {
    v.Obj? && v.m.Keys == m.Keys && forall k :: k in m ==> v.m[k] == Str(m[k]) || (v.m[k] == Null && m[k] == [])
  }

  lemma {:induction false} MembersLikeJson(text: string, acc: map<string, string>, jacc: map<string, Value>)
    requires StringsOf(Obj(jacc), acc) && DecodeMembers(text, acc).Ok?
    ensures var r, j := DecodeMembers(text, acc), ParseMembers(NO_NUMBERS, MAX_NESTING - 1, text, jacc);
            j.Ok? && j.rest == r.rest && StringsOf(j.value, r.value)
    decreases |text|
  {
    var s := SkipSpace(text);
    var Ok(key, afterKey) := ParseString(s[1..]);
    var t := SkipSpace(afterKey);
    var Ok(v, afterValue) := DecodeSecret(t[1..]);
    var jv := ParseValue(NO_NUMBERS, MAX_NESTING - 1, t[1..]).value;
    var u := SkipSpace(afterValue);
    assert StringsOf(Obj(jacc[key := jv]), acc[key := v]);
    if u[0] == ',' {
      MembersLikeJson(u[1..], acc[key := v], jacc[key := jv]);
    }
  }

  lemma NullLikeJson(text: string, s: string)
    requires s == SkipSpace(text) && HasPrefix(s, "null")
    ensures ParseValue(NO_NUMBERS, MAX_NESTING, text) == Ok(Null, s[4..])
  {
    NotPrefix(s, "null");
    NotPrefix(s, "true");
    NotPrefix(s, "false");
    hide HasPrefix, SkipSpace;
  }

  lemma ObjectLikeJson(text: string, s: string)
    requires s == SkipSpace(text) && s != [] && s[0] == '{'
    ensures ParseValue(NO_NUMBERS, MAX_NESTING, text)
         == var t := SkipSpace(s[1..]);
            if t != [] && t[0] == '}' then Ok(Obj(map[]), t[1..])
                 else ParseMembers(NO_NUMBERS, MAX_NESTING - 1, t, map[])
  {
    hide ParseMembers, SkipSpace;
  }

  /** The decoder of secrets agrees with the general JSON decoder. */
  lemma DecodesLikeJson(text: string)
    requires DecodeSecrets(text).Some?
    ensures Parse(NO_NUMBERS, text).Some?
    ensures var v, secrets := Parse(NO_NUMBERS, text).value, DecodeSecrets(text).value;
            if secrets.None? then v == Null else StringsOf(v, secrets.value)
  {
    var s := SkipSpace(text);
    if HasPrefix(s, "null") && SkipSpace(s[4..]) == [] {
      NullLikeJson(text, s);
      hide ParseValue;
    } else {
      ObjectLikeJson(text, s);
      var t := SkipSpace(s[1..]);
      if !(t != [] && t[0] == '}') {
        assert StringsOf(Obj(map[]), map[]);
        MembersLikeJson(t, map[], map[]);
      }
      hide ParseValue, DecodeMembers, ParseMembers, HasPrefix;
    }
  }

  // ------------------------------------------------------------ the file

  const MAGIC := "MCPVAULT1"

  ghost function Sealed(c: Aead, key: Key, nonce: Nonce, secrets: Secrets): string {
    MAGIC + (nonce + c.seal(key, nonce, Document(secrets)))
  }

  function Decrypt(c: Aead, key: Key, sealed: string): Option<string> {
    if |sealed| < NONCE_SIZE then None else c.open(key, sealed[..NONCE_SIZE], sealed[NONCE_SIZE..])
  }

  /** What a file holds, and whether it must be written anew before it counts as opened. */
  datatype Contents = Contents(secrets: Secrets, stale: bool)

  /** `load`; a missing file holds no secrets and is stale. */
  function Load(c: Aead, key: Key, file: Option<string>): Option<Contents> {
    if file.None? then Some(Contents(Some(map[]), true))
    else
      var data := file.value;
      if data == [] then Some(Contents(Some(map[]), false))
      else if HasPrefix(data, MAGIC) then
        match Decrypt(c, key, data[|MAGIC|..])
        case None => None
        case Some(plain) =>
          (match DecodeSecrets(plain)
           case None => None
           case Some(secrets) => Some(Contents(secrets, false)))
      else
        match DecodeSecrets(data)
        case None => None
        case Some(secrets) => Some(Contents(secrets, true))
  }

  /** How a write ends. Only `Done` reports no error; `Late` has written everything,
      `Torn` a beginning. */
  datatype Write = Done | Late | Denied | Torn(kept: nat)

  /** The first `kept` characters, but never all. */
  function Cut(data: string, kept: nat): (left: string)
    ensures left <= data
    ensures data != [] ==> |left| < |data|
    ensures |data| > 1 ==> (left == [] <==> kept == 0)
  {
    if kept < |data| then data[..kept] else if data == [] then [] else data[..|data| - 1]
  }

  function Written(file: Option<string>, data: string, w: Write): Option<string> {
    match w
    case Done => Some(data)
    case Late => Some(data)
    case Denied => file
    case Torn(kept) => Some(Cut(data, kept))
  }

  // ------------------------------------------------------------ runs

  /** The file, and the secrets of the process that has it open, if one does. */
  datatype State = State(file: Option<string>, vault: Option<Secrets>)

  datatype Op =
    | Open(readable: bool, nonce: Nonce, w: Write)
    | Stop
    | Set(name: string, secret: string, nonce: Nonce, w: Write)
    | Delete(name: string, nonce: Nonce, w: Write)

  datatype Result = Succeeded | Failed | Panicked

  const MIN_KEY := 16

  ghost function Saved(c: Aead, key: Key, file: Option<string>, secrets: Secrets, nonce: Nonce, w: Write): State {
    State(Written(file, Sealed(c, key, nonce, secrets), w), Some(secrets))
  }

  /** Opening replaces whatever process was running; one that fails leaves none. */
  ghost function Opened(c: Aead, encKey: string, file: Option<string>, readable: bool, nonce: Nonce, w: Write): State {
    if |encKey| < MIN_KEY || !readable then State(file, None)
    else
      match Load(c, Sha256Key(encKey), file)
      case None => State(file, None)
      case Some(Contents(secrets, stale)) =>
        if !stale then State(file, Some(secrets))
        else
          var s := Saved(c, Sha256Key(encKey), file, secrets, nonce, w);
          if w.Done? then s else s.(vault := None)
  }

  ghost function Apply(c: Aead, encKey: string, s: State, op: Op): State {
    match op
    case Open(readable, nonce, w) => Opened(c, encKey, s.file, readable, nonce, w)
    case Stop => s.(vault := None)
    case Set(name, secret, nonce, w) =>
      if s.vault.Some? && s.vault.value.Some? then
        Saved(c, Sha256Key(encKey), s.file, Some(s.vault.value.value[name := secret]), nonce, w)
      else s
    case Delete(name, nonce, w) =>
      if s.vault.Some? then Saved(c, Sha256Key(encKey), s.file, Without(s.vault.value, name), nonce, w) else s
  }

  /** Deleting from a nil map leaves it nil. */
  function Without(secrets: Secrets, name: string): Secrets {
    if secrets.None? then None else Some(secrets.value - {name})
  }

  ghost function Run(c: Aead, encKey: string, s: State, ops: seq<Op>): State
    decreases |ops|
  {
    if ops == [] then s else Run(c, encKey, Apply(c, encKey, s, ops[0]), ops[1..])
  }

  // ------------------------------------------------------------ the class

  class File {
    var content: Option<string>

    constructor (content: Option<string>)
      ensures this.content == content
    {
      this.content := content;
    }

    method WriteFile(data: string, w: Write) returns (ok: bool)
      modifies this
      ensures content == Written(old(content), data, w) && ok == w.Done?
    {
      match w {
        case Done => content := Some(data);
        case Late => content := Some(data);
        case Denied =>
        case Torn(kept) => content := Some(Cut(data, kept));
      }
      return w.Done?;
    }
  }

  class LocalVault {
    const cipher: Aead
    const encKey: string
    const file: File
    var secrets: Secrets

    constructor Empty(cipher: Aead, encKey: string, file: File)
      ensures this.cipher == cipher && this.encKey == encKey && this.file == file && secrets == Some(map[])
    {
      this.cipher := cipher;
      this.encKey := encKey;
      this.file := file;
      secrets := Some(map[]);
    }

    static method NewLocalVault(cipher: Aead, encKey: string, file: File, readable: bool, nonce: Nonce, w: Write)
      returns (vault: LocalVault?)
      modifies file
      ensures vault != null ==> fresh(vault) && vault.cipher == cipher && vault.encKey == encKey && vault.file == file
      ensures State(file.content, if vault == null then None else Some(vault.secrets))
           == Opened(cipher, encKey, old(file.content), readable, nonce, w)
      ensures |encKey| < MIN_KEY || !readable ==> vault == null && file.content == old(file.content)
      ensures |encKey| >= MIN_KEY && readable && old(file.content).None? ==> (vault != null <==> w.Done?)
      ensures vault != null && old(file.content).None? ==>
                vault.secrets == Some(map[]) && file.content.Some? && HasPrefix(file.content.value, MAGIC)
      ensures |encKey| >= MIN_KEY && readable && old(file.content) == Some([]) ==>
                vault != null && vault.secrets == Some(map[]) && file.content == old(file.content)
    {
      if |encKey| < MIN_KEY {
        return null;
      }
      var lv := new LocalVault.Empty(cipher, encKey, file);
      if !readable {
        return null;
      }
      if file.content.None? {
        var ok := lv.Save(nonce, w);
        SealedParts(cipher, Sha256Key(encKey), nonce, lv.secrets);
        hide Sealed;
        return if ok then lv else null;
      }
      var loaded, migrated := lv.LoadFile();
      if !loaded {
        return null;
      }
      if migrated {
        var ok := lv.Save(nonce, w);
        if !ok {
          return null;
        }
      }
      return lv;
    }

    /** Reads the file into `secrets`; `migrated` asks for it to be written anew. */
    method LoadFile() returns (ok: bool, migrated: bool)
      requires file.content.Some? && secrets == Some(map[])
      modifies this
      ensures Load(cipher, Sha256Key(encKey), file.content) == if ok then Some(Contents(secrets, migrated)) else None
    {
      var data := file.content.value;
      if |data| == 0 {
        return true, false;
      }
      if HasPrefix(data, MAGIC) {
        var plain := Decrypt(cipher, Sha256Key(encKey), data[|MAGIC|..]);
        if plain.None? {
          return false, false;
        }
        var decoded := DecodeSecrets(plain.value);
        if decoded.None? {
          return false, false;
        }
        secrets := decoded.value;
        return true, false;
      }
      var decoded := DecodeSecrets(data);
      if decoded.None? {
        return false, false;
      }
      secrets := decoded.value;
      return true, true;
    }

    method Save(nonce: Nonce, w: Write) returns (ok: bool)
      modifies file
      ensures ok == w.Done?
      ensures State(file.content, Some(secrets))
           == Saved(cipher, Sha256Key(encKey), old(file.content), secrets, nonce, w)
    {
      var data := MarshalIndent(secrets);
      var out := MAGIC + (nonce + cipher.seal(Sha256Key(encKey), nonce, data));
      ok := file.WriteFile(out, w);
    }

    /** Go panics when the map is nil. */
    method SetSecret(name: string, secret: string, nonce: Nonce, w: Write) returns (r: Result)
      modifies this, file
      ensures State(file.content, Some(secrets))
           == Apply(cipher, encKey, State(old(file.content), Some(old(secrets))), Set(name, secret, nonce, w))
      ensures r == if old(secrets).None? then Panicked else if w.Done? then Succeeded else Failed
      ensures secrets == if old(secrets).None? then None else Some(old(secrets).value[name := secret])
    {
      if secrets.None? {
        return Panicked;
      }
      secrets := Some(secrets.value[name := secret]);
      var ok := Save(nonce, w);
      return if ok then Succeeded else Failed;
    }

    method DeleteSecret(name: string, nonce: Nonce, w: Write) returns (r: Result)
      modifies this, file
      ensures State(file.content, Some(secrets))
           == Apply(cipher, encKey, State(old(file.content), Some(old(secrets))), Delete(name, nonce, w))
      ensures r == if w.Done? then Succeeded else Failed
      ensures secrets == if old(secrets).None? then None else Some(old(secrets).value - {name})
    {
      if secrets.Some? {
        secrets := Some(secrets.value - {name});
      }
      var ok := Save(nonce, w);
      return if ok then Succeeded else Failed;
    }

    method GetSecret(name: string) returns (secret: Option<string>)
      ensures secret == Answer(secrets, name)
    {
      if secrets.None? || name !in secrets.value {
        return None;
      }
      return Some(secrets.value[name]);
    }

    method ListSecrets() returns (names: seq<string>)
      ensures Elements(names) == if secrets.Some? then secrets.value.Keys else {}
      ensures forall i, j :: 0 <= i < j < |names| ==> names[i] != names[j]
    {
      if secrets.None? {
        return [];
      }
      names := CollectKeys(secrets.value);
    }
  }

  // ------------------------------------------------------------ loading what was saved

  /** No JSON document starts with the magic header or is empty, so no plaintext file
      is mistaken for an encrypted or an empty one. */
  lemma MagicIsNotJson(data: string)
    ensures DecodeSecrets(data).Some? ==> data != [] && !HasPrefix(data, MAGIC)
  {
    NotPrefix(data, MAGIC);
    NotPrefix(data, "null");
    assert HasPrefix(data, MAGIC) ==> SkipSpace(data) == data;
  }

  lemma SealedParts(c: Aead, key: Key, nonce: Nonce, secrets: Secrets)
    ensures var data := Sealed(c, key, nonce, secrets);
            data != [] && HasPrefix(data, MAGIC)
            && |data[|MAGIC|..]| >= NONCE_SIZE
            && data[|MAGIC|..][..NONCE_SIZE] == nonce
            && data[|MAGIC|..][NONCE_SIZE..] == c.seal(key, nonce, Document(secrets))
  {
    var body := nonce + c.seal(key, nonce, Document(secrets));
    assert (MAGIC + body)[..|MAGIC|] == MAGIC && (MAGIC + body)[|MAGIC|..] == body;
    assert body[..NONCE_SIZE] == nonce;
  }

  /** A saved file loads as what was saved, under the same key, and under no other. */
  lemma SavedLoads(c: Aead, key: Key, key': Key, nonce: Nonce, secrets: Secrets)
    requires Sound(c)
    ensures Load(c, key', Some(Sealed(c, key, nonce, secrets)))
         == if key == key' then Some(Contents(secrets, false)) else None
  {
    SealedParts(c, key, nonce, secrets);
    DocumentReads(secrets);
    hide Document, DecodeSecrets, HasPrefix, Sealed;
  }

  /** Opening with another key fails and leaves the file as it was. */
  lemma WrongKeyFails(c: Aead, encKey: string, other: string, nonce: Nonce, secrets: Secrets, n: Nonce, w: Write)
    requires Sound(c) && encKey != other
    ensures var file := Some(Sealed(c, Sha256Key(encKey), nonce, secrets));
            Opened(c, other, file, true, n, w) == State(file, None)
  {
    SavedLoads(c, Sha256Key(encKey), Sha256Key(other), nonce, secrets);
  }

  /** Without a file an opening makes one, and it is in order exactly when its write
      succeeds: then there are no secrets, the file starts with the magic header, and the
      next opening with this key finds no secrets either. */
  lemma FirstOpening(c: Aead, encKey: string, nonce: Nonce, w: Write, n: Nonce, next: Write)
    requires Sound(c) && |encKey| >= MIN_KEY
    ensures var s := Opened(c, encKey, None, true, nonce, w);
            (s.vault.Some? <==> w.Done?)
            && (w.Done? ==>
                  s.vault == Some(Some(map[])) && s.file.Some? && HasPrefix(s.file.value, MAGIC)
                  && Opened(c, encKey, s.file, true, n, next) == State(s.file, Some(Some(map[]))))
            && (w.Denied? ==> s.file == None)
  {
    SealedParts(c, Sha256Key(encKey), nonce, Some(map[]));
    SavedLoads(c, Sha256Key(encKey), Sha256Key(encKey), nonce, Some(map[]));
    hide Sealed, DecodeSecrets, Decrypt, HasPrefix, Cut;
  }

  /** The other openings that write nothing: a weak key, a file that cannot be read or
      holds neither a sealed nor a plain document, an empty file, and a saved one. */
  lemma OpeningsExactly(c: Aead, encKey: string, data: string, secrets: Secrets, nonce: Nonce, n: Nonce, w: Write)
    requires Sound(c)
    ensures |encKey| < MIN_KEY ==> Opened(c, encKey, Some(data), true, n, w) == State(Some(data), None)
    ensures Opened(c, encKey, Some(data), false, n, w) == State(Some(data), None)
    ensures |encKey| >= MIN_KEY ==>
              Opened(c, encKey, Some([]), true, n, w) == State(Some([]), Some(Some(map[])))
    ensures |encKey| >= MIN_KEY && data != [] && !HasPrefix(data, MAGIC) && DecodeSecrets(data).None? ==>
              Opened(c, encKey, Some(data), true, n, w) == State(Some(data), None)
    ensures |encKey| >= MIN_KEY ==>
              var saved := Some(Sealed(c, Sha256Key(encKey), nonce, secrets));
              Opened(c, encKey, saved, true, n, w) == State(saved, Some(secrets))
  {
    SavedLoads(c, Sha256Key(encKey), Sha256Key(encKey), nonce, secrets);
    hide Sealed, DecodeSecrets, Decrypt, HasPrefix, Sound;
  }

  /** What loads through the encrypted path was sealed under this very key. */
  lemma OnlySealedLoads(c: Aead, key: Key, data: string)
    requires Sound(c) && HasPrefix(data, MAGIC) && Load(c, key, Some(data)).Some?
    ensures exists nonce: Nonce, plain ::
              data == MAGIC + (nonce + c.seal(key, nonce, plain))
              && DecodeSecrets(plain) == Some(Load(c, key, Some(data)).value.secrets)
  {
    hide DecodeSecrets;
    var sealed := data[|MAGIC|..];
    var nonce: Nonce := sealed[..NONCE_SIZE];
    var plain := Decrypt(c, key, sealed).value;
    assert sealed[NONCE_SIZE..] == c.seal(key, nonce, plain);
    assert data == MAGIC + sealed && sealed == nonce + sealed[NONCE_SIZE..];
    assert data == MAGIC + (nonce + c.seal(key, nonce, plain));
  }

  // ------------------------------------------------------------ torn writes

  lemma CutParts(c: Aead, key: Key, nonce: Nonce, secrets: Secrets, kept: nat)
    requires kept > 0
    ensures var data, left := Sealed(c, key, nonce, secrets), Cut(Sealed(c, key, nonce, secrets), kept);
            left != []
            && (|left| < |MAGIC| ==> left[0] == 'M')
            && (|left| >= |MAGIC| ==> HasPrefix(left, MAGIC) && left[|MAGIC|..] <= data[|MAGIC|..]
                                      && |left[|MAGIC|..]| < |data[|MAGIC|..]|)
  {
    var data := Sealed(c, key, nonce, secrets);
    SealedParts(c, key, nonce, secrets);
    var left := Cut(data, kept);
    assert left == data[..|left|];
    assert data[..|MAGIC|] == MAGIC && data[0] == data[..|MAGIC|][0];
    if |left| >= |MAGIC| {
      assert left[..|MAGIC|] == data[..|MAGIC|];
      assert left[|MAGIC|..] == data[|MAGIC|..|left|] == data[|MAGIC|..][..|left| - |MAGIC|];
    }
  }

  lemma CutDoesNotOpen(c: Aead, key: Key, nonce: Nonce, secrets: Secrets, sealed: string)
    requires Sound(c)
    requires sealed <= Sealed(c, key, nonce, secrets)[|MAGIC|..]
         && |sealed| < |Sealed(c, key, nonce, secrets)[|MAGIC|..]|
    ensures Decrypt(c, key, sealed) == None
  {
    SealedParts(c, key, nonce, secrets);
    var body := Sealed(c, key, nonce, secrets)[|MAGIC|..];
    var x := c.seal(key, nonce, Document(secrets));
    hide Sealed, Document;
    if |sealed| >= NONCE_SIZE {
      assert sealed == body[..|sealed|];
      assert sealed[..NONCE_SIZE] == body[..NONCE_SIZE] == nonce;
      assert sealed[NONCE_SIZE..] == body[NONCE_SIZE..][..|sealed| - NONCE_SIZE] == x[..|sealed| - NONCE_SIZE];
    }
  }

  lemma NotADocument(text: string)
    requires text != [] && text[0] == 'M'
    ensures DecodeSecrets(text) == None
  {
    NotPrefix(text, "null");
    assert SkipSpace(text) == text;
  }

  /** What a torn write leaves loads as an empty vault if it left nothing, and not at all
      otherwise. */
  lemma TornLoads(c: Aead, key: Key, nonce: Nonce, secrets: Secrets, kept: nat)
    requires Sound(c)
    ensures Load(c, key, Some(Cut(Sealed(c, key, nonce, secrets), kept)))
         == if kept == 0 then Some(Contents(Some(map[]), false)) else None
  {
    SealedParts(c, key, nonce, secrets);
    if kept > 0 {
      var left := Cut(Sealed(c, key, nonce, secrets), kept);
      CutParts(c, key, nonce, secrets, kept);
      hide Sealed, Cut, DecodeSecrets, Decrypt;
      NotPrefix(left, MAGIC);
      if |left| < |MAGIC| {
        NotADocument(left);
      } else {
        CutDoesNotOpen(c, key, nonce, secrets, left[|MAGIC|..]);
      }
    }
  }

  /** Reopening after a torn write succeeds exactly when the write left the file empty,
      and then it finds no secrets and reports nothing. */
  lemma TornExactly(c: Aead, encKey: string, file: Option<string>, secrets: Secrets, nonce: Nonce, kept: nat,
                    n: Nonce, w: Write)
    requires Sound(c) && |encKey| >= MIN_KEY
    ensures var torn := Saved(c, Sha256Key(encKey), file, secrets, nonce, Torn(kept)).file;
            var reopened := Opened(c, encKey, torn, true, n, w);
            reopened.file == torn
            && (reopened.vault.Some? <==> torn == Some([]))
            && (torn == Some([]) <==> kept == 0)
            && (reopened.vault.Some? ==> reopened.vault == Some(Some(map[])))
  {
    TornLoads(c, Sha256Key(encKey), nonce, secrets, kept);
    SealedParts(c, Sha256Key(encKey), nonce, secrets);
    hide Sealed, Load, Document;
  }

  // ------------------------------------------------------------ refinement

  /** What became of the file since the last complete save: nothing, or a torn write
      left it empty, or it left a part that does not open. */
  datatype Disk = Whole | Emptied | Broken

  /** What the vault is meant to be: the secrets of the last complete save, whether the
      file still waits to be encrypted, what became of it, and the secrets in memory. */
  datatype Model = Model(last: Secrets, stale: bool, disk: Disk, memory: Option<Secrets>)

  /** What a restart finds. */
  function Found(a: Model): Option<Contents> {
    match a.disk
    case Whole => Some(Contents(a.last, a.stale))
    case Emptied => Some(Contents(Some(map[]), false))
    case Broken => None
  }

  function Kept(a: Model, memory: Secrets, w: Write): Model {
    match w
    case Done => Model(memory, false, Whole, Some(memory))
    case Late => Model(memory, false, Whole, Some(memory))
    case Denied => a.(memory := Some(memory))
    case Torn(kept) => a.(disk := if kept == 0 then Emptied else Broken, memory := Some(memory))
  }

  /** Opening reads what is there; only a stale file is written. */
  function Reopened(a: Model, readable: bool, w: Write): Model {
    if !readable then a.(memory := None)
    else
      match Found(a)
      case None => a.(memory := None)
      case Some(Contents(secrets, stale)) =>
        if !stale then a.(memory := Some(secrets))
        else if w.Done? then Kept(a, secrets, w)
        else Kept(a, secrets, w).(memory := None)
  }

  function Intend(a: Model, op: Op): Model {
    match op
    case Open(readable, nonce, w) => Reopened(a, readable, w)
    case Stop => a.(memory := None)
    case Set(name, secret, nonce, w) =>
      if a.memory.Some? && a.memory.value.Some? then Kept(a, Some(a.memory.value.value[name := secret]), w) else a
    case Delete(name, nonce, w) =>
      if a.memory.Some? then Kept(a, Without(a.memory.value, name), w) else a
  }

  function IntendAll(a: Model, ops: seq<Op>): Model
    decreases |ops|
  {
    if ops == [] then a else IntendAll(Intend(a, ops[0]), ops[1..])
  }

  ghost predicate Represents(c: Aead, encKey: string, s: State, a: Model) {
    s.vault == a.memory && Load(c, Sha256Key(encKey), s.file) == Found(a)
  }

  /** The file as it is found at first. */
  function Start(contents: Contents): Model {
    Model(contents.secrets, contents.stale, Whole, None)
  }

  lemma SavedRepresents(c: Aead, encKey: string, s: State, a: Model, secrets: Secrets, nonce: Nonce, w: Write)
    requires Sound(c) && Represents(c, encKey, s, a)
    ensures Represents(c, encKey, Saved(c, Sha256Key(encKey), s.file, secrets, nonce, w), Kept(a, secrets, w))
  {
    SavedLoads(c, Sha256Key(encKey), Sha256Key(encKey), nonce, secrets);
    if w.Torn? { TornLoads(c, Sha256Key(encKey), nonce, secrets, w.kept); }
    hide Load, Sealed, Sound, Cut;
  }

  lemma StepRefines(c: Aead, encKey: string, s: State, a: Model, op: Op)
    requires Sound(c) && |encKey| >= MIN_KEY && Represents(c, encKey, s, a)
    ensures Represents(c, encKey, Apply(c, encKey, s, op), Intend(a, op))
  {
    hide Load, Sealed, Sound;
    match op
    case Open(readable, nonce, w) =>
      if Found(a).Some? { SavedRepresents(c, encKey, s, a, Found(a).value.secrets, nonce, w); }
    case Stop =>
    case Set(name, secret, nonce, w) =>
      if s.vault.Some? && s.vault.value.Some? {
        SavedRepresents(c, encKey, s, a, Some(s.vault.value.value[name := secret]), nonce, w);
      }
    case Delete(name, nonce, w) =>
      if s.vault.Some? {
        SavedRepresents(c, encKey, s, a, Without(s.vault.value, name), nonce, w);
      }
  }

  /** Over every run, however its writes end, the vault is what it is meant to be: it
      answers from the map in memory, and a restart finds the last complete save, an
      empty map, or nothing it can open. */
  lemma {:induction false} RunRefines(c: Aead, encKey: string, s: State, a: Model, ops: seq<Op>)
    requires Sound(c) && |encKey| >= MIN_KEY && Represents(c, encKey, s, a)
    ensures Represents(c, encKey, Run(c, encKey, s, ops), IntendAll(a, ops))
    decreases |ops|
  {
    if ops != [] {
      StepRefines(c, encKey, s, a, ops[0]);
      hide Represents, Sound;
      RunRefines(c, encKey, Apply(c, encKey, s, ops[0]), Intend(a, ops[0]), ops[1..]);
    }
  }

  /** The step writes the file and its write is torn before anything is in it. */
  predicate Empties(a: Model, op: Op) {
    match op
    case Open(readable, _, w) => readable && w == Torn(0) && a.disk.Whole? && a.stale
    case Stop => false
    case Set(_, _, _, w) => w == Torn(0) && a.memory.Some? && a.memory.value.Some?
    case Delete(_, _, w) => w == Torn(0) && a.memory.Some?
  }

  lemma {:induction false} IntendStep(a: Model, ops: seq<Op>, k: nat)
    requires k < |ops|
    ensures IntendAll(a, ops[..k + 1]) == Intend(IntendAll(a, ops[..k]), ops[k])
    decreases |ops|
  {
    assert ops[..k + 1][0] == ops[0] && ops[..k + 1][1..] == ops[1..][..k];
    if k > 0 {
      assert ops[..k][0] == ops[0] && ops[..k][1..] == ops[1..][..k - 1];
      IntendStep(Intend(a, ops[0]), ops[1..], k - 1);
    } else {
      assert ops[1..][..0] == [];
    }
  }

  /** Every opening that succeeds, at any moment of a run, finds the last complete save
      (or could not be told from one that does, both being empty), exactly when no write
      of the run left the file empty. */
  lemma OpeningsFindLastExactly(c: Aead, encKey: string, file: Option<string>, ops: seq<Op>, nonce: Nonce)
    requires Sound(c) && |encKey| >= MIN_KEY && Load(c, Sha256Key(encKey), file).Some?
    ensures var a := Start(Load(c, Sha256Key(encKey), file).value);
            (forall k :: 0 <= k <= |ops| ==> FindsLast(c, encKey, Run(c, encKey, State(file, None), ops[..k]),
                 IntendAll(a, ops[..k]), nonce))
            <==> forall k :: 0 <= k < |ops| && Empties(IntendAll(a, ops[..k]), ops[k]) ==>
                 IntendAll(a, ops[..k]).last == Some(map[])
  {
    var a := Start(Load(c, Sha256Key(encKey), file).value);
    var s := State(file, None);
    forall k | 0 <= k <= |ops|
      ensures FindsLast(c, encKey, Run(c, encKey, s, ops[..k]), IntendAll(a, ops[..k]), nonce)
              <==> Harmless(IntendAll(a, ops[..k]))
    {
      RunRefines(c, encKey, s, a, ops[..k]);
      FindsLastExactly(c, encKey, Run(c, encKey, s, ops[..k]), IntendAll(a, ops[..k]), nonce);
    }
    HarmlessExactly(a, ops);
    hide FindsLast, Harmless, Empties, IntendAll, Run;
  }

  /** If the file opens, it opens with the secrets of the last complete save. */
  ghost predicate FindsLast(c: Aead, encKey: string, s: State, a: Model, nonce: Nonce) {
    var vault := Opened(c, encKey, s.file, true, nonce, Done).vault;
    vault.Some? ==> vault == Some(a.last)
  }

  predicate Harmless(a: Model) {
    a.disk.Emptied? ==> a.last == Some(map[])
  }

  lemma FindsLastExactly(c: Aead, encKey: string, s: State, a: Model, nonce: Nonce)
    requires |encKey| >= MIN_KEY && Represents(c, encKey, s, a)
    ensures FindsLast(c, encKey, s, a, nonce) <==> Harmless(a)
  {
    hide Load, Sealed;
  }

  lemma StepHarmless(a: Model, op: Op)
    requires Harmless(a)
    ensures Harmless(Intend(a, op)) <==> (Empties(a, op) ==> a.last == Some(map[]))
  {
  }

  lemma {:induction false} HarmlessExactly(a: Model, ops: seq<Op>)
    requires Harmless(a)
    ensures (forall k :: 0 <= k <= |ops| ==> Harmless(IntendAll(a, ops[..k])))
            <==> forall k :: 0 <= k < |ops| && Empties(IntendAll(a, ops[..k]), ops[k]) ==>
                 IntendAll(a, ops[..k]).last == Some(map[])
  {
    hide Harmless, Empties, Intend;
    forall k | 0 <= k < |ops| ensures IntendAll(a, ops[..k + 1]) == Intend(IntendAll(a, ops[..k]), ops[k]) {
      IntendStep(a, ops, k);
    }
    assert ops[..0] == [];
    if forall k :: 0 <= k < |ops| && Empties(IntendAll(a, ops[..k]), ops[k]) ==>
         IntendAll(a, ops[..k]).last == Some(map[]) {
      var k := 0;
      while k < |ops|
        invariant 0 <= k <= |ops|
        invariant forall j :: 0 <= j <= k ==> Harmless(IntendAll(a, ops[..j]))
      {
        StepHarmless(IntendAll(a, ops[..k]), ops[k]);
        k := k + 1;
      }
    }
    if forall k :: 0 <= k <= |ops| ==> Harmless(IntendAll(a, ops[..k])) {
      forall k | 0 <= k < |ops| && Empties(IntendAll(a, ops[..k]), ops[k])
        ensures IntendAll(a, ops[..k]).last == Some(map[])
      {
        StepHarmless(IntendAll(a, ops[..k]), ops[k]);
        assert Harmless(IntendAll(a, ops[..k + 1]));
      }
    }
  }

  // ------------------------------------------------------------ restarts

  /** The plain map after a list of requests, those made while no process runs ignored. */
  function Requested(running: bool, m: map<string, string>, ops: seq<Op>): map<string, string>
    decreases |ops|
  {
    if ops == [] then m
    else
      match ops[0]
      case Open(_, _, _) => Requested(true, m, ops[1..])
      case Stop => Requested(false, m, ops[1..])
      case Set(name, secret, _, _) => Requested(running, if running then m[name := secret] else m, ops[1..])
      case Delete(name, _, _) => Requested(running, if running then m - {name} else m, ops[1..])
  }

  predicate Succeeds(op: Op) {
    match op
    case Open(readable, _, w) => readable && w.Done?
    case Set(_, _, _, w) => w.Done?
    case Delete(_, _, w) => w.Done?
    case Stop => true
  }

  lemma {:induction false} IntendedIsRequested(a: Model, m: map<string, string>, ops: seq<Op>)
    requires a.disk.Whole? && a.last == Some(m) && (a.memory.Some? ==> a.memory == Some(a.last))
    requires forall op :: op in ops ==> Succeeds(op)
    ensures IntendAll(a, ops).disk.Whole?
    ensures IntendAll(a, ops).last == Some(Requested(a.memory.Some?, m, ops))
    decreases |ops|
  {
    if ops != [] {
      var op := ops[0];
      assert op in ops && forall op :: op in ops[1..] ==> op in ops;
      var a' := Intend(a, op);
      IntendedIsRequested(a', a'.last.value, ops[1..]);
    }
  }

  /** After any run of successful sets, deletes and reopenings with one key, opening the
      file again gives exactly the map those requests make of what the file first held. */
  lemma RestartEquivalence(c: Aead, encKey: string, file: Option<string>, m: map<string, string>, ops: seq<Op>,
                           nonce: Nonce)
    requires Sound(c) && |encKey| >= MIN_KEY
    requires Load(c, Sha256Key(encKey), file).Some? && Load(c, Sha256Key(encKey), file).value.secrets == Some(m)
    requires forall op :: op in ops ==> Succeeds(op)
    ensures var end := Run(c, encKey, State(file, None), ops);
            Apply(c, encKey, end, Open(true, nonce, Done)).vault == Some(Some(Requested(false, m, ops)))
  {
    var a := Start(Load(c, Sha256Key(encKey), file).value);
    var end := Run(c, encKey, State(file, None), ops);
    RunRefines(c, encKey, State(file, None), a, ops);
    IntendedIsRequested(a, m, ops);
    StepRefines(c, encKey, end, IntendAll(a, ops), Open(true, nonce, Done));
    hide Load, Run, IntendAll, Requested, Opened;
  }

  /** The last value set under a name and not deleted since, or what it held at first. */
  function LastSet(running: bool, name: string, first: Option<string>, ops: seq<Op>): Option<string>
    decreases |ops|
  {
    if ops == [] then first
    else
      match ops[0]
      case Open(_, _, _) => LastSet(true, name, first, ops[1..])
      case Stop => LastSet(false, name, first, ops[1..])
      case Set(n, secret, _, _) =>
        LastSet(running, name, if running && n == name then Some(secret) else first, ops[1..])
      case Delete(n, _, _) => LastSet(running, name, if running && n == name then None else first, ops[1..])
  }

  /** What `GetSecret` answers over a map of secrets. */
  function Answer(secrets: Secrets, name: string): Option<string> {
    if secrets.Some? && name in secrets.value then Some(secrets.value[name]) else None
  }

  lemma {:induction false} RequestedAnswers(running: bool, m: map<string, string>, ops: seq<Op>, name: string)
    ensures Answer(Some(Requested(running, m, ops)), name) == LastSet(running, name, Answer(Some(m), name), ops)
    decreases |ops|
  {
    if ops != [] {
      match ops[0]
      case Open(_, _, _) => RequestedAnswers(true, m, ops[1..], name);
      case Stop => RequestedAnswers(false, m, ops[1..], name);
      case Set(n, secret, _, _) => RequestedAnswers(running, if running then m[n := secret] else m, ops[1..], name);
      case Delete(n, _, _) => RequestedAnswers(running, if running then m - {n} else m, ops[1..], name);
    }
  }

  /** A restarted vault answers for a name with the last value set under it and not
      deleted since, and otherwise with what the file first held. */
  lemma LastSetSurvives(c: Aead, encKey: string, file: Option<string>, m: map<string, string>, ops: seq<Op>,
                        nonce: Nonce, name: string)
    requires Sound(c) && |encKey| >= MIN_KEY
    requires Load(c, Sha256Key(encKey), file).Some? && Load(c, Sha256Key(encKey), file).value.secrets == Some(m)
    requires forall op :: op in ops ==> Succeeds(op)
    ensures var vault := Apply(c, encKey, Run(c, encKey, State(file, None), ops), Open(true, nonce, Done)).vault;
            vault.Some? && Answer(vault.value, name) == LastSet(false, name, Answer(Some(m), name), ops)
  {
    RestartEquivalence(c, encKey, file, m, ops, nonce);
    RequestedAnswers(false, m, ops, name);
    hide Load, Run, Apply, Requested, LastSet, Answer;
  }

  /** From no file at all a restart finds exactly what the requests made of nothing, and
      answers for each name with the last value set and not deleted. */
  lemma FreshRestart(c: Aead, encKey: string, ops: seq<Op>, nonce: Nonce, name: string)
    requires Sound(c) && |encKey| >= MIN_KEY
    requires forall op :: op in ops ==> Succeeds(op)
    ensures var vault := Apply(c, encKey, Run(c, encKey, State(None, None), ops), Open(true, nonce, Done)).vault;
            vault == Some(Some(Requested(false, map[], ops)))
            && Answer(vault.value, name) == LastSet(false, name, None, ops)
  {
    RestartEquivalence(c, encKey, None, map[], ops, nonce);
    RequestedAnswers(false, map[], ops, name);
    hide Run, Apply, Requested, LastSet;
  }

  /** Opening a plaintext file with a write that succeeds loses no secret, rewrites it
      behind the magic header, and makes the next opening take the encrypted path. If the
      write fails the opening does, and the file still gives all its secrets exactly
      when the write was not torn (or emptied a file that held none). */
  lemma MigrationKeepsSecrets(c: Aead, encKey: string, text: string, nonce: Nonce, w: Write)
    requires Sound(c) && |encKey| >= MIN_KEY && DecodeSecrets(text).Some?
    ensures var s, secrets := Opened(c, encKey, Some(text), true, nonce, w), DecodeSecrets(text).value;
            var next := Load(c, Sha256Key(encKey), s.file);
            (s.vault.Some? <==> w.Done?)
            && (w.Done? ==> s.vault == Some(secrets) && next == Some(Contents(secrets, false)))
            && (w.Done? ==> HasPrefix(s.file.value, MAGIC))
            && (w.Denied? ==> s.file == Some(text))
            && ((next.Some? && next.value.secrets == secrets)
                <==> !w.Torn? || (w == Torn(0) && secrets == Some(map[])))
  {
    MagicIsNotJson(text);
    var secrets := DecodeSecrets(text).value;
    SealedParts(c, Sha256Key(encKey), nonce, secrets);
    SavedLoads(c, Sha256Key(encKey), Sha256Key(encKey), nonce, secrets);
    if w.Torn? { TornLoads(c, Sha256Key(encKey), nonce, secrets, w.kept); }
    hide DecodeSecrets, Sealed, HasPrefix, Cut, Decrypt;
  }

  // ------------------------------------------------------------ where it falls short

  /** The write of the step leaves the file empty. */
  predicate TornEmpty(op: Op) {
    match op
    case Open(_, _, w) => w == Torn(0)
    case Set(_, _, _, w) => w == Torn(0)
    case Delete(_, _, w) => w == Torn(0)
    case Stop => false
  }

  predicate NilAsFirst(a: Model, first: Secrets) {
    !a.disk.Emptied? && (a.last.None? <==> first.None?)
    && (a.memory.Some? ==> (a.memory.value.None? <==> first.None?))
  }

  /** No run makes the map nil, and none repairs one that is, unless it empties the file. */
  lemma {:induction false} NilExactly(a: Model, ops: seq<Op>, first: Secrets)
    requires NilAsFirst(a, first)
    requires forall op :: op in ops ==> !TornEmpty(op)
    ensures NilAsFirst(IntendAll(a, ops), first)
    decreases |ops|
  {
    if ops != [] {
      assert ops[0] in ops && forall op :: op in ops[1..] ==> op in ops;
      NilExactly(Intend(a, ops[0]), ops[1..], first);
    }
  }

  /** Only the document `null`, white space aside, decodes into a nil map. */
  lemma NullExactly(text: string)
    ensures DecodeSecrets(text) == Some(None) <==> Parse(NO_NUMBERS, text) == Some(Null)
  {
    var s := SkipSpace(text);
    if DecodeSecrets(text) == Some(None) {
      DecodesLikeJson(text);
    }
    if Parse(NO_NUMBERS, text) == Some(Null) {
      NullText(s);
    }
  }

  lemma NullText(s: string)
    requires SkipSpace(s) == s
    requires ParseValue(NO_NUMBERS, MAX_NESTING, s).Ok? && ParseValue(NO_NUMBERS, MAX_NESTING, s).value == Null
    ensures HasPrefix(s, "null") && ParseValue(NO_NUMBERS, MAX_NESTING, s).rest == s[4..]
  {
    if s[0] == '{' {
      ObjectsOnly(MAX_NESTING - 1, SkipSpace(s[1..]), map[]);
    } else if s[0] == '[' {
      ArraysOnly(MAX_NESTING - 1, SkipSpace(s[1..]), []);
    }
  }

  lemma {:induction false} ObjectsOnly(room: nat, text: string, acc: map<string, Value>)
    ensures ParseMembers(NO_NUMBERS, room, text, acc).Ok? ==> ParseMembers(NO_NUMBERS, room, text, acc).value.Obj?
    decreases |text|
  {
    var s := SkipSpace(text);
    if s != [] && s[0] == '"' && ParseString(s[1..]).Ok? {
      var t := SkipSpace(ParseString(s[1..]).rest);
      if t != [] && t[0] == ':' && ParseValue(NO_NUMBERS, room, t[1..]).Ok? {
        var u := SkipSpace(ParseValue(NO_NUMBERS, room, t[1..]).rest);
        if u != [] && u[0] == ',' {
          ObjectsOnly(room, u[1..], acc[ParseString(s[1..]).value := ParseValue(NO_NUMBERS, room, t[1..]).value]);
        }
      }
    }
  }

  lemma {:induction false} ArraysOnly(room: nat, text: string, acc: seq<Value>)
    ensures ParseElems(NO_NUMBERS, room, text, acc).Ok? ==> ParseElems(NO_NUMBERS, room, text, acc).value.Arr?
    decreases |text|
  {
    if ParseValue(NO_NUMBERS, room, text).Ok? {
      var Ok(v, rest) := ParseValue(NO_NUMBERS, room, text);
      var u := SkipSpace(rest);
      if u != [] && u[0] == ',' {
        ArraysOnly(room, u[1..], acc + [v]);
      }
    }
  }

  /** Started on a plaintext file, a running vault panics on `SetSecret` exactly when that
      file held `null`, however it was used since and whatever writes failed, unless one
      of them left the file empty. */
  lemma PanicsExactly(c: Aead, encKey: string, text: string, ops: seq<Op>)
    requires Sound(c) && |encKey| >= MIN_KEY && DecodeSecrets(text).Some?
    requires forall op :: op in ops ==> !TornEmpty(op)
    requires Run(c, encKey, State(Some(text), None), ops).vault.Some?
    ensures Run(c, encKey, State(Some(text), None), ops).vault.value.None? <==> Parse(NO_NUMBERS, text) == Some(Null)
  {
    MagicIsNotJson(text);
    NullExactly(text);
    var a := Start(Contents(DecodeSecrets(text).value, true));
    RunRefines(c, encKey, State(Some(text), None), a, ops);
    NilExactly(a, ops, a.last);
    hide DecodeSecrets, Parse, Load, Run, IntendAll;
  }

  /** A save torn before anything is written reports an error, but the next opening
      finds an empty vault and reports none. */
  lemma TornWriteLosesSilently(c: Aead, encKey: string, file: Option<string>, m: map<string, string>, name: string,
                               secret: string, nonce: Nonce)
    requires |encKey| >= MIN_KEY
    ensures var s := Apply(c, encKey, State(file, Some(Some(m))), Set(name, secret, nonce, Torn(0)));
            Apply(c, encKey, s, Open(true, nonce, Done)) == State(Some([]), Some(Some(map[])))
  {
    SealedParts(c, Sha256Key(encKey), nonce, Some(m[name := secret]));
    hide Sealed;
  }
}
