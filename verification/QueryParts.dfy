/** What escaping leaves alone in a rendered path: `&`, `=` and a few others keep their
    meaning in a query, so a slot after the `?` of a template may add parameters. */
module QueryParts {
  import opened Text
  import opened PathTemplate
  import opened DotSegments

  /** A reserved character that escaping keeps. */
  predicate PassesEscape(d: char) {
    d in "&=+$:@"
  }

  lemma EscapeByteHas(d: char, b: Byte)
    requires PassesEscape(d)
    ensures d in EscapeByte(b) <==> b as char == d
  {
    if KeptInSegment(b) {
      assert EscapeByte(b) == [b as char];
    } else {
      assert EscapeByte(b) == ['%', UpperHex(b / 16), UpperHex(b % 16)];
    }
  }

  lemma {:induction false} EscapeBytesHas(d: char, bs: seq<Byte>)
    requires PassesEscape(d)
    ensures d in EscapeBytes(bs) <==> exists i :: 0 <= i < |bs| && bs[i] as char == d
  {
    if bs != [] {
      EscapeBytesHas(d, bs[1..]);
      EscapeByteHas(d, bs[0]);
      hide PassesEscape, EscapeByte;
      if i :| 0 <= i < |bs| && bs[i] as char == d { assert i > 0 ==> bs[1..][i - 1] == bs[i]; }
      if i :| 0 <= i < |bs[1..]| && bs[1..][i] as char == d { assert bs[i + 1] == bs[1..][i]; }
    }
  }

  lemma Utf8Has(d: char, c: char)
    requires PassesEscape(d)
    ensures (exists i :: 0 <= i < |Utf8(c)| && Utf8(c)[i] as char == d) <==> c == d
  {
    if c == d { assert Utf8(c)[0] as char == d; }
  }

  /** Such a character is in the escaped value exactly when it is in the value. */
  lemma {:induction false} EscapeHas(d: char, s: string)
    requires PassesEscape(d)
    ensures Avoids(PathEscape(s), d) <==> Avoids(s, d)
  {
    if s != [] {
      EscapeHead(s);
      EscapeBytesHas(d, Utf8(s[0]));
      Utf8Has(d, s[0]);
      EscapeHas(d, s[1..]);
      Uncons(s, []);
      hide PathEscape, EscapeBytes, Utf8, PassesEscape;
    }
  }

  // ------------------------------------------------------------ what an escaped value is made of

  /** Letters, digits and the four marks that never need escaping. */
  predicate Unreserved(c: char) {
    'a' <= c <= 'z' || 'A' <= c <= 'Z' || '0' <= c <= '9' || c in "-._~"
  }

  /** The characters a path segment may hold unescaped (RFC 3986, section 3.3). */
  predicate SegmentLetter(c: char) {
    Unreserved(c) || c in "!$&'()*+,;=" || c in ":@"
  }

  predicate HexDigit(c: char) {
    '0' <= c <= '9' || 'A' <= c <= 'F'
  }

  /** A path segment: such characters and percent triplets. */
  predicate IsSegment(s: string) {
    s == []
    || (if s[0] == '%' then |s| >= 3 && HexDigit(s[1]) && HexDigit(s[2]) && IsSegment(s[3..])
        else SegmentLetter(s[0]) && IsSegment(s[1..]))
  }

  lemma EscapedByte(b: Byte, rest: string)
    requires IsSegment(rest)
    ensures IsSegment(EscapeByte(b) + rest)
  {
    var s := EscapeByte(b) + rest;
    if KeptInSegment(b) {
      assert s[1..] == rest && s[0] != '%' && SegmentLetter(s[0]);
    } else {
      assert s[3..] == rest && s[0] == '%' && s[1] == UpperHex(b / 16) && s[2] == UpperHex(b % 16);
    }
  }

  /** An escaped value is a path segment. */
  lemma {:induction false} EscapedIsSegment(bs: seq<Byte>)
    ensures IsSegment(EscapeBytes(bs))
  {
    if bs != [] {
      EscapedIsSegment(bs[1..]);
      EscapedByte(bs[0], EscapeBytes(bs[1..]));
    }
  }

  predicate Kept(c: char) {
    Unreserved(c) || PassesEscape(c)
  }

  lemma EscapedChar(c: char)
    ensures var e := EscapeBytes(Utf8(c)); if Kept(c) then e == [c] else |e| >= 3
  {
    var bs := Utf8(c);
    assert EscapeBytes(bs) == EscapeByte(bs[0]) + EscapeBytes(bs[1..]);
    if c as int < 0x80 {
      assert bs[1..] == [] && EscapeBytes([]) == [];
      assert Kept(c) <==> KeptInSegment(bs[0]);
    } else {
      assert !KeptInSegment(bs[0]) by { assert bs[0] >= 0x80; }
    }
  }

  /** A value comes out of the escape as it is exactly when it consists of unreserved
      characters and the six reserved ones that pass; any other makes it longer. */
  lemma {:induction false} EscapeKeepsExactly(s: string)
    ensures |PathEscape(s)| >= |s|
    ensures PathEscape(s) == s <==> forall c :: c in s ==> Kept(c)
    ensures PathEscape(s) != s ==> |PathEscape(s)| > |s|
  {
    if s != [] {
      EscapeHead(s);
      EscapedChar(s[0]);
      EscapeKeepsExactly(s[1..]);
      var e, rest := EscapeBytes(Utf8(s[0])), PathEscape(s[1..]);
      assert s == [s[0]] + s[1..];
      hide PathEscape, EscapeBytes, Utf8, Kept;
      if Kept(s[0]) { assert (e + rest)[1..] == rest; }
    }
  }

  lemma EscapeOne(c: char)
    ensures PathEscape([c]) == EscapeBytes(Utf8(c))
  {
    EscapeHead([c]);
    assert [c][1..] == [] && PathEscape([]) == [];
    assert EscapeBytes(Utf8(c)) + [] == EscapeBytes(Utf8(c));
  }

  lemma EscapeThree(a: Byte, b: Byte, c: Byte)
    ensures EscapeBytes([a, b, c]) == EscapeByte(a) + (EscapeByte(b) + EscapeByte(c))
  {
    EscapeCons(c, []);
    EscapeCons(b, [c]);
    EscapeCons(a, [b, c]);
    assert EscapeBytes([]) == [];
    hide *;
    assert [c] + [] == [c] && [b] + [c] == [b, c] && [a] + [b, c] == [a, b, c];
    assert EscapeByte(c) + [] == EscapeByte(c);
  }

  lemma EuroBytes()
    ensures Utf8('\U{20AC}') == [0xE2, 0x82, 0xAC]
    ensures EscapeByte(0xE2) == "%E2" && EscapeByte(0x82) == "%82" && EscapeByte(0xAC) == "%AC"
  {
  }

  /** A euro sign becomes a triplet for each of its three bytes, in upper case. */
  lemma EscapeExample()
    ensures PathEscape("\U{20AC}") == "%E2%82%AC"
  {
    EuroBytes();
    EscapeOne('\U{20AC}');
    EscapeThree(0xE2, 0x82, 0xAC);
    hide *;
    assert "%E2" + ("%82" + "%AC") == "%E2%82%AC";
  }

  // ------------------------------------------------------------ counting

  function Occurs(d: char, s: string): nat {
    if s == [] then 0 else (if s[0] == d then 1 else 0) + Occurs(d, s[1..])
  }

  lemma {:induction false} SplitCount(d: char, s: string)
    ensures |Split(d, s)| == 1 + Occurs(d, s)
  {
    if s != [] { SplitCount(d, s[1..]); }
  }

  lemma {:induction false} OccursConcat(d: char, a: string, b: string)
    ensures Occurs(d, a + b) == Occurs(d, a) + Occurs(d, b)
  {
    if a == [] {
      assert a + b == b;
    } else {
      assert (a + b)[1..] == a[1..] + b;
      OccursConcat(d, a[1..], b);
    }
  }

  lemma {:induction false} OccursNone(d: char, s: string)
    ensures Occurs(d, s) == 0 <==> Avoids(s, d)
  {
    if s != [] {
      OccursNone(d, s[1..]);
      Uncons(s, []);
    }
  }

  lemma PlaceholderAvoids(d: char, name: string)
    requires Avoids(name, d) && d != '{' && d != '}'
    ensures Occurs(d, Placeholder(name)) == 0
  {
    OccursNone(d, Placeholder(name));
  }

  /** Filling slots adds an occurrence exactly when a filled-in value has one. */
  lemma {:induction false} FilledOccurs(d: char, values: map<string, string>, pieces: seq<Piece>)
    requires NamesAvoid(pieces, d) && d != '{' && d != '}'
    ensures Occurs(d, Flatten(Subst(values, pieces))) >= Occurs(d, Flatten(pieces))
    ensures Occurs(d, Flatten(Subst(values, pieces))) == Occurs(d, Flatten(pieces)) <==> FillsAvoid(values, pieces, d)
  {
    if pieces != [] {
      var p, rest := pieces[0], pieces[1..];
      assert p in pieces && forall q :: q in pieces <==> q == p || q in rest;
      FilledOccurs(d, values, rest);
      assert Subst(values, pieces)[1..] == Subst(values, rest);
      var x, y := PieceText(SubstPiece(values, p)), PieceText(p);
      assert Flatten(Subst(values, pieces)) == x + Flatten(Subst(values, rest)) && Flatten(pieces) == y + Flatten(rest);
      OccursConcat(d, x, Flatten(Subst(values, rest)));
      OccursConcat(d, y, Flatten(rest));
      if p.Slot? && p.name in values {
        PlaceholderAvoids(d, p.name);
        OccursNone(d, values[p.name]);
      }
      hide Flatten, Subst, Occurs, Placeholder;
    }
  }

  // ------------------------------------------------------------ parts

  lemma FillsAvoidEscaped(d: char, params: map<string, string>, pieces: seq<Piece>)
    requires PassesEscape(d)
    ensures FillsAvoid(Escaped(params), pieces, d) <==> FillsAvoid(params, pieces, d)
  {
    forall k | k in params ensures Avoids(Escaped(params)[k], d) <==> Avoids(params[k], d) { EscapeHas(d, params[k]); }
    hide PathEscape, PassesEscape, Avoids;
  }

  /** Cut at a character that escaping keeps, the rendered text has exactly the
      template's parts, each rendered on its own, if and only if no value that fills a
      slot contains it. */
  lemma PartsKeptExactly(d: char, pieces: seq<Piece>, order: seq<string>, params: map<string, string>)
    requires PassesEscape(d) && Template(pieces) && NamesAvoid(pieces, d)
    requires SafeKeys(params.Keys) && Elements(order) == params.Keys
    ensures (Split(d, Render(Flatten(pieces), order, Escaped(params)))
             == RenderEach(Split(d, Flatten(pieces)), order, Escaped(params)))
            <==> FillsAvoid(params, pieces, d)
  {
    var values := Escaped(params);
    FillsAvoidEscaped(d, params, pieces);
    Confluent(pieces, order, params);
    FilledOccurs(d, values, pieces);
    SplitCount(d, Flatten(Subst(values, pieces)));
    SplitCount(d, Flatten(pieces));
    if FillsAvoid(values, pieces, d) {
      PartsKept(d, pieces, order, params);
    }
    hide Subst, Split, Render, Flatten, Escaped, FillsAvoid, Occurs;
  }

  lemma PartsKept(d: char, pieces: seq<Piece>, order: seq<string>, params: map<string, string>)
    requires PassesEscape(d) && Template(pieces) && NamesAvoid(pieces, d)
    requires SafeKeys(params.Keys) && Elements(order) == params.Keys && FillsAvoid(Escaped(params), pieces, d)
    ensures Split(d, Render(Flatten(pieces), order, Escaped(params)))
         == RenderEach(Split(d, Flatten(pieces)), order, Escaped(params))
  {
    var values := Escaped(params);
    Confluent(pieces, order, params);
    SubstNamesAvoid(values, pieces, d);
    SplitFlatten(d, Subst(values, pieces));
    SplitSubst(d, values, pieces);
    SplitFlatten(d, pieces);
    var parts := SplitPieces(d, pieces);
    PartsAreTemplates(d, pieces);
    forall i | 0 <= i < |parts|
      ensures Render(Flatten(parts[i]), order, values) == Flatten(Subst(values, parts[i]))
    {
      Confluent(parts[i], order, params);
    }
  }

  /** The parts of a template between question marks stay apart, and each, the query
      among them, keeps its parameters apart exactly when no value that fills one of its
      slots contains an ampersand. */
  lemma QueryKeptExactly(pieces: seq<Piece>, order: seq<string>, params: map<string, string>, k: nat)
    requires Template(pieces) && NamesAvoid(pieces, '?') && SafeKeys(params.Keys) && Elements(order) == params.Keys
    requires k < |SplitPieces('?', pieces)| && NamesAvoid(SplitPieces('?', pieces)[k], '&')
    ensures var values, rendered := Escaped(params), Split('?', Render(Flatten(pieces), order, Escaped(params)));
            |rendered| == |Split('?', Flatten(pieces))| == |SplitPieces('?', pieces)|
            && (Split('&', rendered[k]) == RenderEach(Split('&', Split('?', Flatten(pieces))[k]), order, values)
                <==> FillsAvoid(params, SplitPieces('?', pieces)[k], '&'))
  {
    StructurePreserved(pieces, order, params, '?');
    SplitFlatten('?', pieces);
    PartsAreTemplates('?', pieces);
    PartsKeptExactly('&', SplitPieces('?', pieces)[k], order, params);
    hide Split, SplitPieces, Render, Flatten, Escaped, Template, NamesAvoid, FillsAvoid;
  }

  /** A value with an ampersand in the slot of a query adds a parameter. */
  lemma AddedParameter()
    ensures var pieces, params := [Lit("q="), Slot("q")], map["q" := "a&b=c"];
            Template(pieces)
            && Split('&', Render(Flatten(pieces), ["q"], Escaped(params)))
               != RenderEach(Split('&', Flatten(pieces)), ["q"], Escaped(params))
  {
    var pieces, params := [Lit("q="), Slot("q")], map["q" := "a&b=c"];
    assert '&' in params["q"] by { assert params["q"][1] == '&'; }
    assert pieces[1] in pieces && pieces[1] == Slot("q");
    assert !FillsAvoid(params, pieces, '&');
    assert Elements(["q"]) == params.Keys;
    assert !Spans("q");
    PartsKeptExactly('&', pieces, ["q"], params);
  }
}
