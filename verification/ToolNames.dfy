/** How the OpenAPI importer derives tool names and merges parameters
    (pkg/openapiimport/parser.go). */
module ToolNames {
  import opened Text

  // ------------------------------------------------------------ decimal numbers

  function Digit(n: nat): (c: char)
    requires n < 10
    ensures '0' <= c <= '9'
  {
    ('0' as int + n) as char
  }

  /** `%d`. */
  function Decimal(n: nat): (s: string)
    ensures s != [] && forall c :: c in s ==> '0' <= c <= '9'
  {
    if n < 10 then [Digit(n)] else Decimal(n / 10) + [Digit(n % 10)]
  }

  function DecimalValue(s: string): int {
    if s == [] then 0
    else 10 * DecimalValue(s[..|s| - 1]) + (s[|s| - 1] as int - '0' as int)
  }

  lemma {:induction false} DecimalRoundTrip(n: nat)
    ensures DecimalValue(Decimal(n)) == n
  {
    var s := Decimal(n);
    if n < 10 {
      assert s[..0] == [];
    } else {
      DecimalRoundTrip(n / 10);
      assert s[..|s| - 1] == Decimal(n / 10);
    }
  }

  // ------------------------------------------------------------ disambiguation

  function Numbered(base: string, n: nat): string {
    base + "_" + Decimal(n)
  }

  /** The name of the `n`-th use of a base. */
  function Emit(base: string, n: nat): string {
    if n == 1 then base else Numbered(base, n)
  }

  function Count(bases: seq<string>, base: string): nat {
    if bases == [] then 0
    else Count(bases[..|bases| - 1], base) + if bases[|bases| - 1] == base then 1 else 0
  }

  /** The names of a list of bases: the `k`-th use of `b` is `b` when k is 1, and `b_k` otherwise. */
  function Names(bases: seq<string>): (names: seq<string>)
    ensures |names| == |bases|
    ensures forall i :: 0 <= i < |bases| ==> names[i] == Emit(bases[i], Count(bases[..i + 1], bases[i]))
  {
    seq(|bases|, i requires 0 <= i < |bases| => Emit(bases[i], Count(bases[..i + 1], bases[i])))
  }

  class NameCounts {
    var counts: map<string, nat>

    constructor ()
      ensures counts == map[]
    {
      counts := map[];
    }

    /** How often `base` has been seen. */
    function Seen(base: string): nat
      reads this
    {
      if base in counts then counts[base] else 0
    }

    method UniqueName(base: string) returns (name: string)
      modifies this
      ensures Seen(base) == old(Seen(base)) + 1
      ensures forall b :: b != base ==> Seen(b) == old(Seen(b))
      ensures name == Emit(base, old(Seen(base)) + 1)
    {
      counts := counts[base := (if base in counts then counts[base] else 0) + 1];
      var n := counts[base];
      if n == 1 {
        return base;
      }
      return base + "_" + Decimal(n);
    }
  }

  lemma CountLast(bases: seq<string>, i: nat, b: string)
    requires i < |bases|
    ensures Count(bases[..i + 1], b) == Count(bases[..i], b) + if bases[i] == b then 1 else 0
  {
    assert bases[..i + 1][..i] == bases[..i];
  }

  lemma NumberedAt(b: string, n: nat, i: nat)
    requires |b| <= i < |Numbered(b, n)|
    ensures Numbered(b, n)[i] == '_' <==> i == |b|
  {
    if i > |b| { assert Numbered(b, n)[i] == Decimal(n)[i - |b| - 1] && Decimal(n)[i - |b| - 1] in Decimal(n); }
  }

  /** A longer number would have a digit where the other name has its underscore. */
  lemma NumberLengths(a: string, m: nat, b: string, n: nat)
    requires Numbered(a, m) == Numbered(b, n)
    ensures |Decimal(m)| >= |Decimal(n)|
  {
    assert |a| + 1 + |Decimal(m)| == |b| + 1 + |Decimal(n)|;
    NumberedAt(a, m, |a|);
    if |a| >= |b| { NumberedAt(b, n, |a|); }
  }

  /** The last underscore separates the base from the number. */
  lemma NumberedInjective(a: string, m: nat, b: string, n: nat)
    requires Numbered(a, m) == Numbered(b, n)
    ensures a == b && m == n
  {
    var s := Numbered(a, m);
    NumberLengths(a, m, b, n);
    NumberLengths(b, n, a, m);
    assert s[..|a|] == a && s[..|b|] == b;
    assert s[|a| + 1..] == Decimal(m) && s[|b| + 1..] == Decimal(n);
    DecimalRoundTrip(m);
    DecimalRoundTrip(n);
  }

  lemma {:induction false} CountMonotone(bases: seq<string>, b: string, i: nat, j: nat)
    requires i <= j <= |bases|
    ensures Count(bases[..i], b) <= Count(bases[..j], b)
    decreases j
  {
    if i < j {
      CountLast(bases, j - 1, b);
      CountMonotone(bases, b, i, j - 1);
    }
  }

  /** Every number up to the count is reached, by a use of the base. */
  lemma {:induction false} UseExists(bases: seq<string>, b: string, k: nat) returns (i: nat)
    requires 1 <= k <= Count(bases, b)
    ensures i < |bases| && bases[i] == b && Count(bases[..i + 1], b) == k
    decreases |bases|
  {
    var n := |bases| - 1;
    assert bases[..n + 1] == bases;
    if k <= Count(bases[..n], b) {
      i := UseExists(bases[..n], b, k);
      assert bases[..n][..i + 1] == bases[..i + 1];
    } else {
      i := n;
    }
  }

  /** Some base in the list is the numbered name another base needs. */
  ghost predicate Clash(bases: seq<string>) {
    exists b, k :: 2 <= k <= Count(bases, b) && Numbered(b, k) in bases
  }

  ghost predicate Distinct(names: seq<string>) {
    forall i, j :: 0 <= i < j < |names| ==> names[i] != names[j]
  }

  lemma SameName(bases: seq<string>, i: nat, j: nat)
    requires i < j < |bases| && Names(bases)[i] == Names(bases)[j]
    ensures Clash(bases)
  {
    hide Count, Numbered, Decimal;
    var a, b := bases[i], bases[j];
    var m, n := Count(bases[..i + 1], a), Count(bases[..j + 1], b);
    CountLast(bases, i, a);
    CountLast(bases, j, b);
    assert bases[..|bases|] == bases;
    CountMonotone(bases, a, i + 1, |bases|);
    CountMonotone(bases, b, j + 1, |bases|);
    if m >= 2 && n >= 2 {
      NumberedInjective(a, m, b, n);
      CountMonotone(bases, b, i + 1, j);
    } else if n >= 2 {
      assert a == Numbered(b, n);
    } else if m >= 2 {
      assert b == Numbered(a, m);
    } else {
      CountMonotone(bases, b, i + 1, j);
    }
  }

  /** The names of a list of operations are pairwise distinct exactly when no base in
      it is the numbered form that a repeated base takes. */
  lemma DistinctExactly(bases: seq<string>)
    ensures Distinct(Names(bases)) <==> !Clash(bases)
  {
    if !Distinct(Names(bases)) {
      var i, j :| 0 <= i < j < |bases| && Names(bases)[i] == Names(bases)[j];
      SameName(bases, i, j);
    }
    if Clash(bases) {
      var b, k :| 2 <= k <= Count(bases, b) && Numbered(b, k) in bases;
      ClashRepeats(bases, b, k);
    }
  }

  lemma ClashRepeats(bases: seq<string>, b: string, k: nat)
    requires 2 <= k <= Count(bases, b) && Numbered(b, k) in bases
    ensures !Distinct(Names(bases))
  {
    var c := Numbered(b, k);
    CountPositive(bases, c);
    var i := UseExists(bases, b, k);
    var j := UseExists(bases, c, 1);
    assert |c| > |b|;
    assert Names(bases)[i] == Names(bases)[j] == c;
    if i < j { assert !Distinct(Names(bases)); }
  }

  lemma {:induction false} CountPositive(bases: seq<string>, b: string)
    requires b in bases
    ensures Count(bases, b) >= 1
  {
    var n := |bases| - 1;
    if bases[n] != b {
      var i :| 0 <= i < |bases| && bases[i] == b;
      assert bases[..n][i] == b;
      CountPositive(bases[..n], b);
    }
  }

  /** The smallest list that clashes. */
  lemma ClashExample()
    ensures Names(["a", "a", "a_2"]) == ["a", "a_2", "a_2"]
  {
    var bases := ["a", "a", "a_2"];
    assert bases[..1] == ["a"] && bases[..2] == ["a", "a"] && bases[..3] == bases;
    CountLast(bases, 0, "a");
    CountLast(bases, 1, "a");
    assert bases[..0] == [];
    CountLast(bases, 0, "a_2");
    CountLast(bases, 1, "a_2");
    CountLast(bases, 2, "a_2");
    assert Numbered("a", 2) == "a_2";
  }

  // ------------------------------------------------------------ sanitized names

  predicate IsAlnum(c: char) { 'a' <= c <= 'z' || '0' <= c <= '9' }

  /** `unicode.ToLower`, of which only its effect on the kept characters matters. */
  type Lower = char -> char

  ghost predicate KeepsAlnum(lower: Lower) {
    forall c :: IsAlnum(c) || c == '_' ==> lower(c) == c
  }

  function Lowered(lower: Lower, s: string): (r: string)
    ensures |r| == |s| && forall i :: 0 <= i < |s| ==> r[i] == lower(s[i])
  {
    seq(|s|, i requires 0 <= i < |s| => lower(s[i]))
  }

  /** The longest prefix of characters that are, or are not, kept. */
  function Run(s: string, kept: bool): (n: nat)
    ensures n <= |s|
    ensures forall i :: 0 <= i < n ==> IsAlnum(s[i]) == kept
    ensures n < |s| ==> IsAlnum(s[n]) != kept
  {
    if s == [] || IsAlnum(s[0]) != kept then 0 else 1 + Run(s[1..], kept)
  }

  /** Every run of other characters becomes one underscore. */
  function Collapse(s: string): string
    decreases |s|
  {
    if s == [] then []
    else if IsAlnum(s[0]) then [s[0]] + Collapse(s[1..])
    else "_" + Collapse(s[Run(s, false)..])
  }

  function TrimLeft(s: string): string {
    if s != [] && s[0] == '_' then TrimLeft(s[1..]) else s
  }

  function TrimRight(s: string): string {
    if s != [] && s[|s| - 1] == '_' then TrimRight(s[..|s| - 1]) else s
  }

  function SanitizeName(lower: Lower, s: string): string {
    TrimRight(TrimLeft(Collapse(Lowered(lower, s))))
  }

  /** The words of a text: its maximal runs of kept characters. */
  function Words(s: string): (words: seq<string>)
    decreases |s|
  {
    if s == [] then []
    else if IsAlnum(s[0]) then
      var n := Run(s, true);
      [s[..n]] + Words(s[n..])
    else Words(s[1..])
  }

  function Join(words: seq<string>): string {
    if words == [] then []
    else words[0] + if |words| == 1 then [] else "_" + Join(words[1..])
  }

  ghost predicate Word(w: string) {
    w != [] && forall c :: c in w ==> IsAlnum(c)
  }

  ghost predicate AllWords(words: seq<string>) {
    forall w :: w in words ==> Word(w)
  }

  lemma {:induction false} WordsAreWords(s: string)
    ensures AllWords(Words(s))
    decreases |s|
  {
    if s != [] {
      if IsAlnum(s[0]) {
        WordsAreWords(s[Run(s, true)..]);
      } else {
        WordsAreWords(s[1..]);
      }
    }
  }

  function Wrap(left: bool, body: string, right: bool): string {
    (if left then "_" else []) + body + (if right then "_" else [])
  }

  predicate Leads(s: string) { s != [] && !IsAlnum(s[0]) }

  predicate Trails(s: string) { Words(s) != [] && !IsAlnum(s[|s| - 1]) }

  /** The collapsed text: the joined words, with an underscore before or after where
      the text begins or ends with something else. */
  function Framed(s: string): string {
    Wrap(Leads(s), Join(Words(s)), Trails(s))
  }

  lemma CollapseStep(c: char, rest: string)
    requires IsAlnum(c)
    ensures Collapse([c] + rest) == [c] + Collapse(rest)
    ensures Run([c] + rest, true) == 1 + Run(rest, true)
  {
    assert ([c] + rest)[1..] == rest;
  }

  lemma TakeCons(c: char, rest: string, n: nat, more: string)
    requires n <= |rest|
    ensures ([c] + rest)[1 + n..] == rest[n..]
    ensures ([c] + rest)[..1 + n] + more == [c] + (rest[..n] + more)
  {
  }

  lemma TakeNone(s: string, t: string)
    ensures s[0..] == s && s[..0] + t == t
  {
  }

  lemma {:induction false} CollapseWord(s: string)
    ensures Collapse(s) == s[..Run(s, true)] + Collapse(s[Run(s, true)..])
    decreases |s|
  {
    if s == [] || !IsAlnum(s[0]) {
      assert Run(s, true) == 0;
      hide *;
      TakeNone(s, Collapse(s));
    } else {
      hide *;
      var c, rest := s[0], s[1..];
      assert s == [c] + rest;
      var n := Run(rest, true);
      CollapseWord(rest);
      CollapseStep(c, rest);
      TakeCons(c, rest, n, Collapse(rest[n..]));
    }
  }

  lemma {:induction false} WordsSkip(s: string)
    ensures Words(s) == Words(s[Run(s, false)..])
    decreases |s|
  {
    if s != [] && !IsAlnum(s[0]) {
      WordsSkip(s[1..]);
      assert s[1..][Run(s[1..], false)..] == s[Run(s, false)..];
    } else {
      assert s[0..] == s;
    }
  }

  lemma {:induction false} NoWords(s: string)
    requires Words(s) == [] && s != []
    ensures !IsAlnum(s[|s| - 1])
    decreases |s|
  {
    if |s| > 1 { NoWords(s[1..]); }
  }

  lemma JoinCons(w: string, words: seq<string>)
    ensures Join([w] + words) == if words == [] then w else w + "_" + Join(words)
  {
    assert ([w] + words)[1..] == words;
  }

  /** Collapsing gives the joined words in their frame. */
  lemma {:induction false} CollapseIsFramed(s: string)
    ensures Collapse(s) == Framed(s)
    decreases |s|
  {
    if s != [] {
      var n := Run(s, IsAlnum(s[0]));
      assert n > 0;
      CollapseIsFramed(s[n..]);
      if IsAlnum(s[0]) { FrameWord(s, n); } else { FrameGap(s, n); }
    }
  }

  lemma WrapLaws(w: string, j: string, right: bool)
    ensures "_" + Wrap(false, j, right) == Wrap(true, j, right)
    ensures w + Wrap(true, j, right) == Wrap(false, w + "_" + j, right)
    ensures w + Wrap(true, [], false) == Wrap(false, w, true)
    ensures w + Wrap(false, [], false) == Wrap(false, w, false)
  {
    var tail := if right then "_" else [];
    assert w + ("_" + j + tail) == [] + (w + "_" + j) + tail;
    assert [] + j + tail == j + tail;
    assert "_" + (j + tail) == "_" + j + tail;
    assert "_" + [] + [] == "_" && [] + w + "_" == w + "_" && [] + w + [] == w;
  }

  lemma GapFacts(s: string, n: nat)
    requires s != [] && !IsAlnum(s[0]) && n == Run(s, false)
    ensures n > 0 && Words(s) == Words(s[n..]) && Leads(s) && !Leads(s[n..]) && Trails(s) == Trails(s[n..])
    ensures Collapse(s) == "_" + Collapse(s[n..])
  {
    WordsSkip(s);
    if n < |s| { assert s[n..][|s| - n - 1] == s[|s| - 1]; }
  }

  lemma FrameGap(s: string, n: nat)
    requires s != [] && !IsAlnum(s[0]) && n == Run(s, false) && Collapse(s[n..]) == Framed(s[n..])
    ensures Collapse(s) == Framed(s)
  {
    hide Wrap, Collapse, Words, Join, Leads, Trails, Run;
    GapFacts(s, n);
    WrapLaws([], Join(Words(s)), Trails(s));
  }

  lemma RunFacts(s: string, n: nat)
    requires s != [] && IsAlnum(s[0]) && n == Run(s, true)
    ensures 0 < n <= |s| && IsAlnum(s[n - 1]) && (n < |s| ==> !IsAlnum(s[n]))
    ensures Words(s) != [] && Words([]) == []
  {
  }

  lemma FirstWord(s: string, n: nat)
    requires s != [] && IsAlnum(s[0]) && n == Run(s, true)
    ensures Words(s) == [s[..n]] + Words(s[n..])
  {
  }

  lemma LastOf(s: string, n: nat)
    requires n < |s|
    ensures s[n..] != [] && s[n..][|s[n..]| - 1] == s[|s| - 1] && s[n..][0] == s[n]
  {
  }

  lemma WordFacts(s: string, n: nat)
    requires s != [] && IsAlnum(s[0]) && n == Run(s, true)
    ensures 0 < n <= |s| && !Leads(s)
    ensures if n == |s| then Words(s[n..]) == [] && !Leads(s[n..]) && !Trails(s) && !Trails(s[n..])
            else Leads(s[n..])
                 && if Words(s[n..]) == [] then Trails(s) && !Trails(s[n..]) else Trails(s) == Trails(s[n..])
  {
    RunFacts(s, n);
    hide Words, Run, IsAlnum;
    if n == |s| {
      assert s[n..] == [];
    } else {
      LastOf(s, n);
      if Words(s[n..]) == [] { NoWords(s[n..]); }
    }
  }

  lemma FrameWord(s: string, n: nat)
    requires s != [] && IsAlnum(s[0]) && n == Run(s, true) && Collapse(s[n..]) == Framed(s[n..])
    ensures Collapse(s) == Framed(s)
  {
    assert Join([]) == [];
    hide Wrap, Collapse, Words, Join, Leads, Trails, Run;
    var w, rest := s[..n], s[n..];
    CollapseWord(s);
    FirstWord(s, n);
    WordFacts(s, n);
    JoinCons(w, Words(rest));
    WrapLaws(w, Join(Words(rest)), Trails(rest));
  }

  lemma {:induction false} JoinEnds(words: seq<string>)
    requires AllWords(words) && words != []
    ensures var j := Join(words); j != [] && IsAlnum(j[0]) && IsAlnum(j[|j| - 1])
    ensures forall c :: c in Join(words) ==> IsAlnum(c) || c == '_'
  {
    var w := words[0];
    assert w in words && Word(w) && w[0] in w && w[|w| - 1] in w;
    if |words| > 1 {
      assert forall x :: x in words[1..] ==> x in words;
      JoinEnds(words[1..]);
      var j, rest := Join(words), Join(words[1..]);
      assert j == w + "_" + rest;
      assert j[|j| - 1] == rest[|rest| - 1];
    }
  }

  lemma TrimFrame(left: bool, j: string, right: bool)
    requires j != [] && j[0] != '_' && j[|j| - 1] != '_'
    ensures TrimRight(TrimLeft(Wrap(left, j, right))) == j
  {
    var tail := if right then "_" else [];
    var body := j + tail;
    assert Wrap(left, j, right) == if left then "_" + body else body;
    assert body[0] == j[0] && ("_" + body)[1..] == body;
    assert TrimLeft(body) == body && TrimLeft("_" + body) == body;
    assert right ==> body[|body| - 1] == '_' && body[..|body| - 1] == j;
    assert !right ==> body == j;
  }

  /** A sanitized name is the words of the lowercased text joined by underscores. */
  lemma SanitizeIsJoin(lower: Lower, s: string)
    ensures SanitizeName(lower, s) == Join(Words(Lowered(lower, s)))
  {
    var t := Lowered(lower, s);
    CollapseIsFramed(t);
    WordsAreWords(t);
    if Words(t) == [] {
      assert Framed(t) == [] || Framed(t) == "_";
      assert "_"[1..] == [];
    } else {
      JoinEnds(Words(t));
      TrimFrame(Leads(t), Join(Words(t)), Trails(t));
    }
  }

  /** The words can be read off the joined text. */
  lemma {:induction false} WordsOfJoin(words: seq<string>)
    requires AllWords(words)
    ensures Words(Join(words)) == words
  {
    if words != [] {
      var w := words[0];
      assert w in words && Word(w) && w[0] in w;
      if |words| == 1 {
        WordsThen(w, []);
        assert w + [] == w && words == [w] + [];
      } else {
        assert forall x :: x in words[1..] ==> x in words;
        WordsOfJoin(words[1..]);
        var more := "_" + Join(words[1..]);
        WordsThen(w, more);
        assert more[1..] == Join(words[1..]);
        assert Join(words) == w + more;
        assert words == [w] + words[1..];
      }
    }
  }

  lemma WordsThen(w: string, rest: string)
    requires Word(w) && (rest != [] ==> !IsAlnum(rest[0]))
    ensures Words(w + rest) == [w] + Words(rest)
  {
    RunIs(w, rest);
    assert w[0] in w;
    assert (w + rest)[..|w|] == w && (w + rest)[|w|..] == rest;
  }

  lemma {:induction false} RunIs(w: string, rest: string)
    requires (forall c :: c in w ==> IsAlnum(c)) && (rest != [] ==> !IsAlnum(rest[0]))
    ensures Run(w + rest, true) == |w|
  {
    if w == [] {
      assert w + rest == rest;
    } else {
      assert w[0] in w && (w + rest)[1..] == w[1..] + rest;
      RunIs(w[1..], rest);
    }
  }

  /** Texts get the same sanitized name exactly when they have the same words, and
      sanitizing again changes nothing. */
  lemma SanitizeExactly(lower: Lower, a: string, b: string)
    requires KeepsAlnum(lower)
    ensures SanitizeName(lower, a) == SanitizeName(lower, b) <==> Words(Lowered(lower, a)) == Words(Lowered(lower, b))
    ensures SanitizeName(lower, SanitizeName(lower, a)) == SanitizeName(lower, a)
  {
    var wa, wb := Words(Lowered(lower, a)), Words(Lowered(lower, b));
    SanitizeIsJoin(lower, a);
    SanitizeIsJoin(lower, b);
    WordsAreWords(Lowered(lower, a));
    WordsAreWords(Lowered(lower, b));
    WordsOfJoin(wa);
    WordsOfJoin(wb);
    SanitizeIsJoin(lower, Join(wa));
    if wa != [] { JoinEnds(wa); }
    var name := Join(wa);
    forall i | 0 <= i < |name| ensures lower(name[i]) == name[i] { assert name[i] in name; }
    assert Lowered(lower, name) == name;
  }

  // ------------------------------------------------------------ the importer's loop

  /** The operations of a path item, by method, with their operation ids. */
  type PathItem = map<string, string>

  const METHODS := ["get", "put", "post", "delete", "options", "head", "patch", "trace"]

  function ToolNameBase(lower: Lower, operationId: string, verb: string, path: string): string {
    var s := SanitizeName(lower, operationId);
    if s != [] then s else SanitizeName(lower, verb + "_" + path)
  }

  /** A base is never empty, whatever the operation id. */
  lemma BaseNotEmpty(lower: Lower, operationId: string, verb: string, path: string)
    requires KeepsAlnum(lower) && verb in METHODS
    ensures ToolNameBase(lower, operationId, verb, path) != []
  {
    var s := verb + "_" + path;
    var t := Lowered(lower, s);
    SanitizeIsJoin(lower, s);
    assert verb != [] && IsAlnum(verb[0]) && t[0] == lower(verb[0]);
    WordsAreWords(t);
    JoinEnds(Words(t));
  }

  /** An operation id with a word in it gives its words, lowercased and joined; one
      without gives those of the method and the path. */
  lemma BaseExactly(lower: Lower, operationId: string, verb: string, path: string)
    ensures var words := Words(Lowered(lower, operationId));
            ToolNameBase(lower, operationId, verb, path)
            == if words != [] then Join(words) else Join(Words(Lowered(lower, verb + "_" + path)))
  {
    SanitizeIsJoin(lower, operationId);
    SanitizeIsJoin(lower, verb + "_" + path);
    WordsAreWords(Lowered(lower, operationId));
    if Words(Lowered(lower, operationId)) != [] { JoinEnds(Words(Lowered(lower, operationId))); }
    hide Words, SanitizeName;
  }

  datatype Operation = Operation(path: string, verb: string, base: string)

  /** The operations of one path, in the fixed order of methods. */
  function OperationsOf(lower: Lower, prefix: string, path: string, item: PathItem,
                        methods: seq<string>): seq<Operation> {
    if methods == [] then []
    else
      var m := methods[0];
      (if m in item then [Operation(path, m, prefix + ToolNameBase(lower, item[m], m, path))] else [])
      + OperationsOf(lower, prefix, path, item, methods[1..])
  }

  function AllOperations(lower: Lower, prefix: string, paths: map<string, PathItem>, order: seq<string>): seq<Operation>
    requires Elements(order) <= paths.Keys
  {
    if order == [] then []
    else
      assert order[0] in Elements(order) && Elements(order[1..]) <= Elements(order);
      OperationsOf(lower, prefix, order[0], paths[order[0]], METHODS)
      + AllOperations(lower, prefix, paths, order[1..])
  }

  /** All operations of a document, in the order the importer meets them. */
  ghost function DocumentOperations(lower: Lower, prefix: string, paths: map<string, PathItem>): seq<Operation> {
    AllOperations(lower, prefix, paths, SortedKeys(paths.Keys))
  }

  /** Operation `op` is in the document, under the base its operation id gives it. */
  ghost predicate InDocument(lower: Lower, prefix: string, paths: map<string, PathItem>, op: Operation) {
    op.path in paths && op.verb in METHODS && op.verb in paths[op.path]
    && op.base == prefix + ToolNameBase(lower, paths[op.path][op.verb], op.verb, op.path)
  }

  /** One path before another, and under one path one method before another. */
  ghost predicate Precedes(a: Operation, b: Operation) {
    Less(a.path, b.path)
    || (a.path == b.path
        && exists i, j :: 0 <= i < j < |METHODS| && METHODS[i] == a.verb && METHODS[j] == b.verb)
  }

  ghost predicate Ordered(ops: seq<Operation>) {
    forall i, j :: 0 <= i < j < |ops| ==> Precedes(ops[i], ops[j])
  }

  lemma OrderedConcat(a: seq<Operation>, b: seq<Operation>)
    requires Ordered(a) && Ordered(b)
    requires forall x, y :: x in a && y in b ==> Precedes(x, y)
    ensures Ordered(a + b)
  {
    var all := a + b;
    forall i, j | 0 <= i < j < |all| ensures Precedes(all[i], all[j]) {
      if i < |a| <= j { assert a[i] in a && b[j - |a|] in b; }
    }
  }

  /** The operations of a path item from a method on. */
  lemma {:induction false} ItemOperations(lower: Lower, prefix: string, path: string, item: PathItem, from: nat)
    requires from <= |METHODS|
    ensures var ops := OperationsOf(lower, prefix, path, item, METHODS[from..]);
            Ordered(ops)
            && forall op :: op in ops <==>
                              op.path == path && op.verb in METHODS[from..] && op.verb in item
                              && op.base == prefix + ToolNameBase(lower, item[op.verb], op.verb, path)
    decreases |METHODS| - from
  {
    if from < |METHODS| {
      hide ToolNameBase, Less;
      ItemOperations(lower, prefix, path, item, from + 1);
      var m := METHODS[from];
      var rest := OperationsOf(lower, prefix, path, item, METHODS[from + 1..]);
      assert METHODS[from..] == [m] + METHODS[from + 1..];
      var first := if m in item then [Operation(path, m, prefix + ToolNameBase(lower, item[m], m, path))] else [];
      forall x, y | x in first && y in rest ensures Precedes(x, y) {
        var j :| 0 <= j < |METHODS[from + 1..]| && METHODS[from + 1..][j] == y.verb;
        assert METHODS[from + 1 + j] == y.verb;
      }
      OrderedConcat(first, rest);
    }
  }

  lemma {:induction false} PathOperations(lower: Lower, prefix: string, paths: map<string, PathItem>,
                                          order: seq<string>)
    requires Elements(order) <= paths.Keys && StrictlySorted(order)
    ensures var ops := AllOperations(lower, prefix, paths, order);
            Ordered(ops) && forall op :: op in ops <==> op.path in order && InDocument(lower, prefix, paths, op)
  {
    if order != [] {
      hide ToolNameBase, Less, OperationsOf;
      var first, rest := order[0], order[1..];
      assert order == [first] + rest;
      assert Elements(rest) <= Elements(order) && first in Elements(order);
      PathOperations(lower, prefix, paths, rest);
      ItemOperations(lower, prefix, first, paths[first], 0);
      assert METHODS[0..] == METHODS;
      var a, b := OperationsOf(lower, prefix, first, paths[first], METHODS),
                  AllOperations(lower, prefix, paths, rest);
      forall x, y | x in a && y in b ensures Precedes(x, y) {
        var j :| 0 <= j < |rest| && rest[j] == y.path;
        assert order[j + 1] == y.path;
      }
      OrderedConcat(a, b);
    }
  }

  /** The importer names every operation of the document exactly once, in the order of
      the paths and under one path of the methods. */
  lemma DocumentExactly(lower: Lower, prefix: string, paths: map<string, PathItem>)
    ensures var ops := DocumentOperations(lower, prefix, paths);
            Ordered(ops) && forall op :: op in ops <==> InDocument(lower, prefix, paths, op)
  {
    PathOperations(lower, prefix, paths, SortedKeys(paths.Keys));
    hide InDocument, AllOperations;
    assert forall k :: k in SortedKeys(paths.Keys) <==> k in Elements(SortedKeys(paths.Keys));
    InDocumentPath(lower, prefix, paths);
  }

  lemma InDocumentPath(lower: Lower, prefix: string, paths: map<string, PathItem>)
    ensures forall op :: InDocument(lower, prefix, paths, op) ==> op.path in paths
  {
  }

  function Bases(ops: seq<Operation>): (bases: seq<string>)
    ensures |bases| == |ops|
    ensures forall i :: 0 <= i < |ops| ==> bases[i] == ops[i].base
  {
    seq(|ops|, i requires 0 <= i < |ops| => ops[i].base)
  }

  /** The importer has named these operations, in order. */
  ghost predicate Named(counts: NameCounts, ops: seq<Operation>, names: seq<string>)
    reads counts
  {
    names == Names(Bases(ops)) && forall b :: counts.Seen(b) == Count(Bases(ops), b)
  }

  lemma NameKept(bases: seq<string>, base: string, i: nat)
    requires i < |bases|
    ensures Names(bases + [base])[i] == Names(bases)[i]
  {
    hide Count, Emit;
    assert (bases + [base])[..i + 1] == bases[..i + 1];
  }

  lemma TakeAppended<T>(xs: seq<T>, x: T)
    ensures (xs + [x])[..|xs|] == xs && (xs + [x])[..|xs| + 1] == xs + [x] && (xs + [x])[|xs|] == x
  {
  }

  lemma NameAdded(bases: seq<string>, base: string)
    ensures Names(bases + [base])[|bases|] == Emit(base, Count(bases, base) + 1)
  {
    hide *;
    CountAppend(bases, base);
    TakeAppended(bases, base);
  }

  lemma CountAppend(bases: seq<string>, base: string)
    ensures forall b :: Count(bases + [base], b) == Count(bases, b) + if b == base then 1 else 0
  {
    TakeAppended(bases, base);
  }

  lemma NamesAppend(bases: seq<string>, base: string)
    ensures Names(bases + [base]) == Names(bases) + [Emit(base, Count(bases, base) + 1)]
  {
    hide *;
    NameAdded(bases, base);
    forall i | 0 <= i < |bases| ensures Names(bases + [base])[i] == Names(bases)[i] {
      NameKept(bases, base, i);
    }
  }

  lemma NamedAppend(ops: seq<Operation>, op: Operation)
    ensures Names(Bases(ops + [op])) == Names(Bases(ops)) + [Emit(op.base, Count(Bases(ops), op.base) + 1)]
    ensures forall b :: Count(Bases(ops + [op]), b) == Count(Bases(ops), b) + if b == op.base then 1 else 0
  {
    hide *;
    BasesAppend(ops, op);
    CountAppend(Bases(ops), op.base);
    NamesAppend(Bases(ops), op.base);
  }

  lemma BasesAppend(ops: seq<Operation>, op: Operation)
    ensures Bases(ops + [op]) == Bases(ops) + [op.base]
  {
  }

  lemma OperationsStep(lower: Lower, prefix: string, path: string, item: PathItem, i: nat, done: seq<Operation>)
    requires i < |METHODS|
    ensures var m := METHODS[i];
            done + OperationsOf(lower, prefix, path, item, METHODS[i..])
            == (if m in item then done + [Operation(path, m, prefix + ToolNameBase(lower, item[m], m, path))] else done)
               + OperationsOf(lower, prefix, path, item, METHODS[i + 1..])
  {
    hide ToolNameBase;
    assert METHODS[i..][0] == METHODS[i] && METHODS[i..][1..] == METHODS[i + 1..];
  }

  lemma PathsStep(lower: Lower, prefix: string, paths: map<string, PathItem>, order: seq<string>, i: nat,
                  done: seq<Operation>)
    requires i < |order| && Elements(order[i..]) <= paths.Keys
    ensures order[i] in paths && Elements(order[i + 1..]) <= paths.Keys
    ensures done + AllOperations(lower, prefix, paths, order[i..])
         == done + OperationsOf(lower, prefix, order[i], paths[order[i]], METHODS)
            + AllOperations(lower, prefix, paths, order[i + 1..])
  {
    hide OperationsOf;
    assert order[i..][0] == order[i] && order[i..][1..] == order[i + 1..];
    assert order[i] in Elements(order[i..]);
    assert forall x :: x in order[i + 1..] ==> x in Elements(order[i..]);
  }

  lemma OrderEnds(order: seq<string>)
    ensures order[0..] == order && order[|order|..] == []
  {
  }

  /** `Parse`'s naming loop: paths in sorted order, methods in their fixed order.
      The names are those of the document's operations, a function of the document
      alone, however its maps are iterated. */
  method NameTools(lower: Lower, prefix: string, paths: map<string, PathItem>)
    returns (names: seq<string>, ops: seq<Operation>)
    ensures ops == DocumentOperations(lower, prefix, paths)
    ensures names == Names(Bases(ops))
  {
    hide AllOperations, OperationsOf, ToolNameBase, Names;
    var order := CollectKeys(paths);
    order := SortStrings(order);
    var counts := new NameCounts();
    names, ops := [], [];
    NoNames();
    OrderEnds(order);
    for i := 0 to |order|
      invariant Elements(order[i..]) <= paths.Keys
      invariant fresh(counts) && Named(counts, ops, names)
      invariant ops + AllOperations(lower, prefix, paths, order[i..]) == AllOperations(lower, prefix, paths, order)
    {
      PathsStep(lower, prefix, paths, order, i, ops);
      names, ops := NamePath(lower, prefix, order[i], paths[order[i]], counts, names, ops);
    }
    NoOperations(lower, prefix, paths, ops);
    OrderEnds(order);
  }

  lemma NoNames()
    ensures Names(Bases([])) == [] && forall b :: Count(Bases([]), b) == 0
  {
  }

  lemma NoOperations(lower: Lower, prefix: string, paths: map<string, PathItem>, ops: seq<Operation>)
    ensures Elements([]) <= paths.Keys && ops + AllOperations(lower, prefix, paths, []) == ops
  {
  }

  lemma NoMethods(lower: Lower, prefix: string, path: string, item: PathItem, ops: seq<Operation>)
    ensures METHODS[|METHODS|..] == [] && ops + OperationsOf(lower, prefix, path, item, []) == ops
  {
  }

  method NameOne(counts: NameCounts, op: Operation, names0: seq<string>, ghost ops: seq<Operation>)
    returns (names: seq<string>)
    requires Named(counts, ops, names0)
    modifies counts
    ensures Named(counts, ops + [op], names)
  {
    hide Names, Bases, Count, Emit;
    NamedAppend(ops, op);
    var name := counts.UniqueName(op.base);
    names := names0 + [name];
  }

  method NamePath(
    lower: Lower, prefix: string, path: string, item: PathItem, counts: NameCounts, names0: seq<string>,
         ops0: seq<Operation>)
    returns (names: seq<string>, ops: seq<Operation>)
    requires Named(counts, ops0, names0)
    modifies counts
    ensures Named(counts, ops, names)
    ensures ops == ops0 + OperationsOf(lower, prefix, path, item, METHODS)
  {
    hide *;
    names, ops := names0, ops0;
    assert METHODS[0..] == METHODS;
    ghost var all := ops + OperationsOf(lower, prefix, path, item, METHODS);
    for i := 0 to |METHODS|
      invariant Named(counts, ops, names)
      invariant ops + OperationsOf(lower, prefix, path, item, METHODS[i..]) == all
    {
      OperationsStep(lower, prefix, path, item, i, ops);
      var verb := METHODS[i];
      if verb in item {
        var base := prefix + ToolNameBase(lower, item[verb], verb, path);
        names := NameOne(counts, Operation(path, verb, base), names, ops);
        ops := ops + [Operation(path, verb, base)];
      }
    }
    NoMethods(lower, prefix, path, item, ops);
  }

  // ------------------------------------------------------------ parameters

  datatype Parameter = Parameter(location: string, name: string, body: string)

  function Key(p: Parameter): string {
    p.location + "|" + p.name
  }

  /** The last parameter with a key. */
  function LastWith(ps: seq<Parameter>, key: string): Option<Parameter> {
    if ps == [] then None
    else if Key(ps[|ps| - 1]) == key then Some(ps[|ps| - 1])
    else LastWith(ps[..|ps| - 1], key)
  }

  lemma {:induction false} LastConcat(a: seq<Parameter>, b: seq<Parameter>, key: string)
    ensures LastWith(a + b, key) == if LastWith(b, key).Some? then LastWith(b, key) else LastWith(a, key)
    decreases |b|
  {
    if b == [] {
      assert a + b == a;
    } else {
      var n := |b| - 1;
      assert (a + b)[..|a| + n] == a + b[..n];
      LastConcat(a, b[..n], key);
    }
  }

  /** `at` is the last index of its key. */
  ghost predicate LastIndex(ps: seq<Parameter>, key: string, at: nat) {
    at < |ps| && Key(ps[at]) == key && forall j :: at < j < |ps| ==> Key(ps[j]) != key
  }

  ghost predicate Indexed(ps: seq<Parameter>, index: map<string, nat>) {
    (forall k :: k in index ==> LastIndex(ps, k, index[k]))
    && forall j :: 0 <= j < |ps| ==> Key(ps[j]) in index
  }

  lemma {:induction false} LastAtIndex(ps: seq<Parameter>, key: string, at: nat)
    requires LastIndex(ps, key, at)
    ensures LastWith(ps, key) == Some(ps[at])
    decreases |ps|
  {
    var n := |ps| - 1;
    if at < n { LastAtIndex(ps[..n], key, at); }
  }

  lemma {:induction false} LastNone(ps: seq<Parameter>, key: string)
    requires forall j :: 0 <= j < |ps| ==> Key(ps[j]) != key
    ensures LastWith(ps, key) == None
  {
    if ps != [] { LastNone(ps[..|ps| - 1], key); }
  }

  /** Replacing the last entry of a key changes what is last for that key alone. */
  lemma IndexOf(ps: seq<Parameter>, index: map<string, nat>, key: string)
    requires Indexed(ps, index) && key in index
    ensures index[key] < |ps| && Key(ps[index[key]]) == key
  {
  }

  lemma ReplaceLast(ps: seq<Parameter>, index: map<string, nat>, p: Parameter, key: string)
    requires Indexed(ps, index) && Key(p) in index
    ensures Indexed(ps[index[Key(p)] := p], index)
    ensures LastWith(ps[index[Key(p)] := p], key) == if key == Key(p) then Some(p) else LastWith(ps, key)
  {
    var out := ps[index[Key(p)] := p];
    if key in index {
      LastAtIndex(ps, key, index[key]);
      LastAtIndex(out, key, index[key]);
    } else {
      LastNone(ps, key);
      LastNone(out, key);
    }
  }

  ghost predicate UniqueKeys(ps: seq<Parameter>) {
    forall i, j :: 0 <= i < j < |ps| ==> Key(ps[i]) != Key(ps[j])
  }

  function Keys(ps: seq<Parameter>): (keys: seq<string>)
    ensures |keys| == |ps| && forall i :: 0 <= i < |ps| ==> keys[i] == Key(ps[i])
  {
    seq(|ps|, i requires 0 <= i < |ps| => Key(ps[i]))
  }

  /** The keys of `over` that `base` does not have, each once, in order of first use. */
  function NewKeys(base: seq<Parameter>, over: seq<Parameter>): (keys: seq<string>)
    ensures forall k :: k in keys ==> k !in Keys(base)
    ensures forall i, j :: 0 <= i < j < |keys| ==> keys[i] != keys[j]
  {
    if over == [] then []
    else
      var n := |over| - 1;
      var before := NewKeys(base, over[..n]);
      if Key(over[n]) in Keys(base) || Key(over[n]) in before then before else before + [Key(over[n])]
  }

  /** `merged` lists the keys of `base` in their places, then the new ones in order of
      first use, and differs from `base` only where the last entry of a key is overridden. */
  ghost predicate Overrides(base: seq<Parameter>, over: seq<Parameter>, merged: seq<Parameter>) {
    Keys(merged) == Keys(base) + NewKeys(base, over)
    && forall i :: 0 <= i < |base| ==>
         merged[i] == base[i]
         || (LastIndex(base, Key(base[i]), i) && LastWith(over, Key(base[i])) == Some(merged[i]))
  }

  lemma OverridesStart(base: seq<Parameter>)
    ensures Overrides(base, [], base)
  {
    assert Keys(base) + [] == Keys(base);
  }

  lemma TailKey(base: seq<Parameter>, over: seq<Parameter>, merged: seq<Parameter>, i: nat)
    requires Overrides(base, over, merged) && i < |merged|
    ensures |merged| == |base| + |NewKeys(base, over)|
    ensures i < |base| ==> Key(merged[i]) == Key(base[i])
    ensures i >= |base| ==> Key(merged[i]) == NewKeys(base, over)[i - |base|] && Key(merged[i]) !in Keys(base)
  {
    assert Keys(merged)[i] == Key(merged[i]);
    if i >= |base| { assert NewKeys(base, over)[i - |base|] in NewKeys(base, over); }
  }

  /** The last entry of a key `base` has is in `base`. */
  lemma LastInBase(base: seq<Parameter>, over: seq<Parameter>, merged: seq<Parameter>, i: nat)
    requires Overrides(base, over, merged) && i < |base|
    ensures LastIndex(base, Key(base[i]), i) <==> LastIndex(merged, Key(base[i]), i)
  {
    TailKey(base, over, merged, i);
    assert Keys(base)[i] in Keys(base);
    hide Key, Overrides, NewKeys;
    forall j | i < j < |merged| ensures (j < |base| && Key(merged[j]) == Key(base[j]))
         || (j >= |base| && Key(merged[j]) != Key(base[i])) {
      TailKey(base, over, merged, j);
    }
  }

  lemma OverridesReplace(base: seq<Parameter>, seen: seq<Parameter>, merged: seq<Parameter>,
                         index: map<string, nat>, p: Parameter)
    requires Overrides(base, seen, merged) && Indexed(merged, index) && Key(p) in index
    ensures index[Key(p)] < |merged| && Overrides(base, seen + [p], merged[index[Key(p)] := p])
  {
    IndexOf(merged, index, Key(p));
    var k, at := Key(p), index[Key(p)];
    var next := merged[at := p];
    TailKey(base, seen, merged, at);
    NewKeysAppend(base, seen, p);
    assert k in Keys(base) || k in NewKeys(base, seen) by {
      if at < |base| { assert Keys(base)[at] == k; }
    }
    assert Keys(next) == Keys(merged);
    assert LastIndex(merged, k, at);
    forall i | 0 <= i < |base|
      ensures next[i] == base[i] || (LastIndex(base, Key(base[i]), i)
           && LastWith(seen + [p], Key(base[i])) == Some(next[i]))
    {
      LastAppend(seen, p, Key(base[i]));
      LastInBase(base, seen, merged, i);
      TailKey(base, seen, merged, i);
    }
    hide Key, LastWith;
  }

  lemma NewKeysAppend(base: seq<Parameter>, seen: seq<Parameter>, p: Parameter)
    ensures NewKeys(base, seen + [p])
         == if Key(p) in Keys(base) || Key(p) in NewKeys(base, seen) then NewKeys(base, seen)
              else NewKeys(base, seen) + [Key(p)]
  {
    assert (seen + [p])[..|seen|] == seen;
  }

  lemma OverridesAppend(base: seq<Parameter>, seen: seq<Parameter>, merged: seq<Parameter>,
                        index: map<string, nat>, p: Parameter)
    requires Overrides(base, seen, merged) && Indexed(merged, index) && Key(p) !in index
    ensures Overrides(base, seen + [p], merged + [p])
  {
    NewKeysAppend(base, seen, p);
    KeysAppend(merged, p);
    FreshKey(base, seen, merged, index, p);
    var news := NewKeys(base, seen);
    forall i | 0 <= i < |base|
      ensures i < |merged|
      ensures merged[i] == base[i] || (LastIndex(base, Key(base[i]), i)
           && LastWith(seen + [p], Key(base[i])) == Some(merged[i]))
    {
      LastAppend(seen, p, Key(base[i]));
      TailKey(base, seen, merged, i);
      assert Keys(base)[i] == Key(base[i]);
    }
    hide Key, LastWith, Indexed, LastIndex, NewKeys, Keys;
    assert Keys(base) + news + [Key(p)] == Keys(base) + (news + [Key(p)]);
  }

  lemma KeysAppend(ps: seq<Parameter>, p: Parameter)
    ensures Keys(ps + [p]) == Keys(ps) + [Key(p)]
  {
  }

  lemma FreshKey(base: seq<Parameter>, seen: seq<Parameter>, merged: seq<Parameter>, index: map<string, nat>,
                 p: Parameter)
    requires Overrides(base, seen, merged) && Indexed(merged, index) && Key(p) !in index
    ensures Key(p) !in Keys(base) && Key(p) !in NewKeys(base, seen)
  {
    var news := NewKeys(base, seen);
    assert |Keys(merged)| == |merged|;
    forall i | 0 <= i < |base| ensures Keys(base)[i] != Key(p) { TailKey(base, seen, merged, i); }
    forall j | 0 <= j < |news| ensures news[j] != Key(p) { TailKey(base, seen, merged, |base| + j); }
  }

  /** What `MergeParameters` promises leaves one result. */
  lemma MergeDetermined(base: seq<Parameter>, over: seq<Parameter>, x: seq<Parameter>, y: seq<Parameter>)
    requires Overrides(base, over, x) && Overrides(base, over, y)
    requires forall key :: LastWith(x, key) == LastWith(base + over, key) == LastWith(y, key)
    ensures x == y
  {
    assert |Keys(x)| == |Keys(y)|;
    forall i | 0 <= i < |x| ensures x[i] == y[i] {
      EntryDetermined(base, over, x, i);
      EntryDetermined(base, over, y, i);
    }
  }

  lemma EntryDetermined(base: seq<Parameter>, over: seq<Parameter>, merged: seq<Parameter>, i: nat)
    requires Overrides(base, over, merged) && i < |merged|
    requires forall key :: LastWith(merged, key) == LastWith(base + over, key)
    ensures |merged| == |base| + |NewKeys(base, over)|
    ensures i >= |base| ==> LastWith(base + over, NewKeys(base, over)[i - |base|]) == Some(merged[i])
    ensures i < |base| && LastIndex(base, Key(base[i]), i) ==> LastWith(base + over, Key(base[i])) == Some(merged[i])
    ensures i < |base| && !LastIndex(base, Key(base[i]), i) ==> merged[i] == base[i]
  {
    TailKey(base, over, merged, i);
    if i < |base| {
      LastInBase(base, over, merged, i);
      if LastIndex(base, Key(base[i]), i) { LastAtIndex(merged, Key(base[i]), i); }
    } else {
      var key := NewKeys(base, over)[i - |base|];
      forall j | i < j < |merged| ensures Key(merged[j]) != key { TailKey(base, over, merged, j); }
      LastAtIndex(merged, key, i);
    }
  }

  /** Merging means the same as listing the operation's parameters after the path's,
      with the last entry of a key standing; where the path listed no key twice, the
      result lists none twice either. Every entry stays at the place of its key, and new
      ones follow in order of first use. */
  method MergeParameters(base: seq<Parameter>, over: seq<Parameter>) returns (merged: seq<Parameter>)
    ensures forall key :: LastWith(merged, key) == LastWith(base + over, key)
    ensures UniqueKeys(base) ==> UniqueKeys(merged)
    ensures SamePlaces(base, merged)
    ensures Overrides(base, over, merged)
  {
    hide LastWith, SamePlaces, UniqueKeys, Overrides;
    merged := [];
    var index: map<string, nat> := map[];
    for i := 0 to |base|
      invariant merged == base[..i] && Indexed(merged, index)
    {
      index := index[Key(base[i]) := |merged|];
      merged := merged + [base[i]];
    }
    assert base[..|base|] == base && base + over[..0] == base;
    PlacesStart(base);
    OverridesStart(base);
    assert over[..0] == [];
    hide Indexed;
    for i := 0 to |over|
      invariant Indexed(merged, index)
      invariant forall key :: LastWith(merged, key) == LastWith(base + over[..i], key)
      invariant UniqueKeys(base) ==> UniqueKeys(merged)
      invariant SamePlaces(base, merged)
      invariant Overrides(base, over[..i], merged)
    {
      var p := over[i];
      assert over[..i + 1] == over[..i] + [p];
      var k := Key(p);
      assert base + over[..i + 1] == base + over[..i] + [p];
      if k in index {
        OverridesReplace(base, over[..i], merged, index, p);
        ReplaceStep(base, merged, index, p, base + over[..i]);
        merged := merged[index[k] := p];
        continue;
      }
      OverridesAppend(base, over[..i], merged, index, p);
      AppendStep(base, merged, index, p, base + over[..i]);
      index := index[k := |merged|];
      merged := merged + [p];
    }
    assert over[..|over|] == over;
  }

  /** The entries of `base`, or their replacements, stand where they stood. */
  ghost predicate SamePlaces(base: seq<Parameter>, merged: seq<Parameter>) {
    |base| <= |merged| && forall i :: 0 <= i < |base| ==> Key(merged[i]) == Key(base[i])
  }

  lemma PlacesStart(base: seq<Parameter>)
    ensures SamePlaces(base, base)
  {
  }

  /** An override of a listed key keeps everything that is said of the merged list. */
  lemma ReplaceStep(base: seq<Parameter>, merged: seq<Parameter>, index: map<string, nat>, p: Parameter,
                    listed: seq<Parameter>)
    requires Indexed(merged, index) && SamePlaces(base, merged) && Key(p) in index
    requires forall key :: LastWith(merged, key) == LastWith(listed, key)
    ensures index[Key(p)] < |merged|
    ensures var next := merged[index[Key(p)] := p];
            Indexed(next, index) && SamePlaces(base, next) && (UniqueKeys(merged) ==> UniqueKeys(next))
            && forall key :: LastWith(next, key) == LastWith(listed + [p], key)
  {
    hide LastWith, Indexed;
    assert index[Key(p)] < |merged| && Key(merged[index[Key(p)]]) == Key(p) by { IndexOf(merged, index, Key(p)); }
    var next := merged[index[Key(p)] := p];
    ReplaceLast(merged, index, p, Key(p));
    forall key ensures LastWith(next, key) == LastWith(listed + [p], key) {
      LastAppend(listed, p, key);
      ReplaceLast(merged, index, p, key);
    }
  }

  lemma AppendIndexed(base: seq<Parameter>, merged: seq<Parameter>, index: map<string, nat>, p: Parameter)
    requires Indexed(merged, index) && SamePlaces(base, merged) && Key(p) !in index
    ensures var next := merged + [p];
            Indexed(next, index[Key(p) := |merged|]) && SamePlaces(base, next)
                 && (UniqueKeys(merged) ==> UniqueKeys(next))
  {
    hide Key;
  }

  /** So does an override of a new key. */
  lemma AppendStep(base: seq<Parameter>, merged: seq<Parameter>, index: map<string, nat>, p: Parameter,
                   listed: seq<Parameter>)
    requires Indexed(merged, index) && SamePlaces(base, merged) && Key(p) !in index
    requires forall key :: LastWith(merged, key) == LastWith(listed, key)
    ensures var next := merged + [p];
            Indexed(next, index[Key(p) := |merged|]) && SamePlaces(base, next)
                 && (UniqueKeys(merged) ==> UniqueKeys(next))
            && forall key :: LastWith(next, key) == LastWith(listed + [p], key)
  {
    hide *;
    AppendIndexed(base, merged, index, p);
    forall key ensures LastWith(merged + [p], key) == LastWith(listed + [p], key) {
      LastAppend(listed, p, key);
      LastAppend(merged, p, key);
    }
  }

  lemma LastAppend(ps: seq<Parameter>, p: Parameter, key: string)
    ensures LastWith(ps + [p], key) == if key == Key(p) then Some(p) else LastWith(ps, key)
  {
    assert (ps + [p])[..|ps|] == ps;
  }

  lemma BarAt(q: Parameter, i: nat)
    requires '|' !in q.location && i <= |q.location|
    ensures Key(q)[i] == '|' <==> i == |q.location|
  {
    if i < |q.location| { assert Key(q)[i] == q.location[i] && q.location[i] in q.location; }
  }

  lemma NoBarBefore(p: Parameter, q: Parameter)
    requires '|' !in q.location && Key(p) == Key(q)
    ensures |p.location| >= |q.location|
  {
    assert Key(p)[|p.location|] == '|';
    BarAt(q, if |p.location| < |q.location| then |p.location| else |q.location|);
  }

  /** The joined key identifies location and name, since no location has a bar in it. */
  lemma KeyExactly(p: Parameter, q: Parameter)
    requires '|' !in p.location && '|' !in q.location
    ensures Key(p) == Key(q) <==> p.location == q.location && p.name == q.name
  {
    if Key(p) == Key(q) {
      var s := Key(p);
      NoBarBefore(p, q);
      NoBarBefore(q, p);
      assert s[..|p.location|] == p.location && s[..|q.location|] == q.location;
      assert s[|p.location| + 1..] == p.name && s[|q.location| + 1..] == q.name;
    }
  }

  /** The `required` list: every name once, sorted. */
  method DedupeSorted(items: seq<string>) returns (out: seq<string>)
    ensures out == SortedKeys(Elements(items))
  {
    var seen: set<string> := {};
    out := [];
    for i := 0 to |items|
      invariant Elements(out) == seen == Elements(items[..i])
      invariant forall a, b :: 0 <= a < b < |out| ==> out[a] != out[b]
    {
      assert Elements(items[..i + 1]) == Elements(items[..i]) + {items[i]};
      if items[i] !in seen {
        assert forall a :: 0 <= a < |out| ==> out[a] in Elements(out);
        assert Elements(out + [items[i]]) == Elements(out) + {items[i]};
        seen := seen + {items[i]};
        out := out + [items[i]];
      }
    }
    assert items[..|items|] == items;
    out := SortStrings(out);
  }
}
