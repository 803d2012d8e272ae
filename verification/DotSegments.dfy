/** The dot segments of a rendered path (RFC 3986 section 5.2.4): escaping keeps a value
    inside its segment, but leaves `.` and `..` as they are. */
module DotSegments {
  import opened Text
  import opened PathTemplate

  predicate AllDots(s: string) {
    forall c :: c in s ==> c == '.'
  }

  /** A segment that RFC 3986 section 5.2.4 would remove. */
  predicate DotSegment(s: string) {
    s == "." || s == ".."
  }

  lemma EscapeCons(b: Byte, bs: seq<Byte>)
    ensures EscapeBytes([b] + bs) == EscapeByte(b) + EscapeBytes(bs)
  {
    assert ([b] + bs)[1..] == bs;
  }

  lemma {:induction false} EscapeConcat(a: seq<Byte>, b: seq<Byte>)
    ensures EscapeBytes(a + b) == EscapeBytes(a) + EscapeBytes(b)
  {
    if a == [] {
      assert a + b == b && EscapeBytes(a) == [];
    } else {
      EscapeConcat(a[1..], b);
      EscapeCons(a[0], a[1..]);
      EscapeCons(a[0], a[1..] + b);
      hide *;
      Uncons(a, b);
      Assoc(EscapeByte(a[0]), EscapeBytes(a[1..]), EscapeBytes(b));
    }
  }

  lemma EscapeChar(c: char)
    ensures c == '.' ==> EscapeBytes(Utf8(c)) == "."
    ensures c != '.' ==> EscapeBytes(Utf8(c)) != [] && EscapeBytes(Utf8(c))[0] != '.'
  {
    var bs := Utf8(c);
    var first := EscapeByte(bs[0]);
    assert EscapeBytes(bs) == first + EscapeBytes(bs[1..]);
    if c == '.' { assert EscapeBytes([46]) == ['.'] + EscapeBytes([46][1..]); }
  }

  lemma DotsConcat(a: string, b: string)
    ensures AllDots(a + b) <==> AllDots(a) && AllDots(b)
  {
    forall c ensures c in a + b <==> c in a || c in b {
    }
  }

  /** Escaping neither makes nor hides dots. */
  lemma {:induction false} EscapeDots(s: string)
    ensures AllDots(PathEscape(s)) <==> AllDots(s)
    ensures AllDots(s) ==> PathEscape(s) == s
  {
    if s != [] {
      EscapeDots(s[1..]);
      EscapeHead(s);
      EscapeChar(s[0]);
      var head, tail := EscapeBytes(Utf8(s[0])), PathEscape(s[1..]);
      hide PathEscape, EscapeBytes, Utf8, AllDots;
      Uncons(s, []);
      DotsConcat(head, tail);
      DotsConcat([s[0]], s[1..]);
      FirstDot(head);
      FirstDot([s[0]]);
    }
  }

  lemma EscapeHead(s: string)
    requires s != []
    ensures PathEscape(s) == EscapeBytes(Utf8(s[0])) + PathEscape(s[1..])
  {
    EscapeConcat(Utf8(s[0]), Utf8Bytes(s[1..]));
  }

  lemma FirstDot(s: string)
    ensures s == "." ==> AllDots(s)
    ensures s != [] && s[0] != '.' ==> !AllDots(s)
  {
    if s != [] { assert s[0] in s; }
  }

  lemma {:induction false} FilledDots(pieces: seq<Piece>, params: map<string, string>)
    ensures var escaped, raw := Flatten(Subst(Escaped(params), pieces)), Flatten(Subst(params, pieces));
            (AllDots(escaped) <==> AllDots(raw)) && (AllDots(raw) ==> escaped == raw)
  {
    if pieces != [] {
      var p, rest := pieces[0], pieces[1..];
      FilledDots(rest, params);
      assert Subst(Escaped(params), pieces)[1..] == Subst(Escaped(params), rest);
      assert Subst(params, pieces)[1..] == Subst(params, rest);
      var x, y := PieceText(SubstPiece(Escaped(params), p)), PieceText(SubstPiece(params, p));
      var u, v := Flatten(Subst(Escaped(params), rest)), Flatten(Subst(params, rest));
      assert Flatten(Subst(Escaped(params), pieces)) == x + u && Flatten(Subst(params, pieces)) == y + v;
      if p.Slot? && p.name in params {
        EscapeDots(params[p.name]);
      } else {
        assert x == y;
      }
      assert (AllDots(x) <==> AllDots(y)) && (AllDots(y) ==> x == y);
      hide *;
      DotsConcat(x, u);
      DotsConcat(y, v);
    }
  }

  /** A segment of the rendered path is `.` or `..` exactly when the values as they are,
      put into that segment of the template, make it so: escaping removes no dot segment
      and adds none. */
  lemma DotSegmentsExactly(pieces: seq<Piece>, order: seq<string>, params: map<string, string>, k: nat)
    requires Template(pieces) && NamesAvoid(pieces, '/')
    requires SafeKeys(params.Keys) && Elements(order) == params.Keys
    requires k < |SplitPieces('/', pieces)|
    ensures var segments := Split('/', Render(Flatten(pieces), order, Escaped(params)));
            |segments| == |SplitPieces('/', pieces)|
            && (DotSegment(segments[k]) <==> DotSegment(Flatten(Subst(params, SplitPieces('/', pieces)[k]))))
  {
    var values := Escaped(params);
    forall v | v in values ensures Avoids(values[v], '/') { EscapeIsSafe(params[v]); }
    Confluent(pieces, order, params);
    SubstNamesAvoid(values, pieces, '/');
    SplitFlatten('/', Subst(values, pieces));
    SplitSubst('/', values, pieces);
    var part := SplitPieces('/', pieces)[k];
    FilledDots(part, params);
    hide Subst, SplitPieces, Split, Render, Flatten, Escaped;
    DotsAre(Flatten(Subst(values, part)));
    DotsAre(Flatten(Subst(params, part)));
  }

  lemma DotsAre(s: string)
    ensures DotSegment(s) ==> AllDots(s)
  {
  }

  /** The slot of a segment of its own gives a dot segment exactly for the values `.` and `..`. */
  lemma DotValue(name: string, params: map<string, string>)
    requires name in params
    ensures DotSegment(Flatten(Subst(params, [Slot(name)]))) <==> DotSegment(params[name])
  {
    assert Subst(params, [Slot(name)]) == [Lit(params[name])];
    FlattenOne(Lit(params[name]));
  }
}
