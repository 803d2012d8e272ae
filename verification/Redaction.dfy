/** Masking of secrets in tool arguments and results (pkg/redaction). A regular
    expression is given by the matches it reports; positions count characters
    (Go's byte offsets fall on the same boundaries of valid UTF-8). */
module Redaction {
  import opened Text
  import opened Json
  import Luhn

  /** A match, and its first capture group for rules that keep it. */
  datatype Match = Match(start: nat, end: nat, groupStart: nat, groupEnd: nat)

  /** `keep` is the text put after the first group when the rule has a template
      `${1}...`; without one the whole match becomes its tag. */
  datatype Detector = Detector(
    cls: string,
    find: string -> seq<Match>,
    validate: string -> bool,
    keep: Option<string>)

  ghost predicate InRange(text: string, ms: seq<Match>) {
    forall i :: 0 <= i < |ms| ==> ms[i].start <= ms[i].groupStart <= ms[i].groupEnd <= ms[i].end <= |text|
  }

  /** A detector whose regular expression reports spans of the text it is given. */
  type Rule = d: Detector | forall text :: InRange(text, d.find(text))
    ghost witness Detector([], (text: string) => [], (text: string) => true, None)

  function Tag(cls: string): string {
    "[REDACTED:" + cls + "]"
  }

  function Replacement(text: string, rule: Rule, m: Match): string
    requires m.groupStart <= m.groupEnd <= |text|
  {
    match rule.keep
    case None => Tag(rule.cls)
    case Some(suffix) => text[m.groupStart..m.groupEnd] + suffix
  }

  // ------------------------------------------------------------ one rule

  /** The matches that are redacted: validated, and not begun before `last`, where
      the previous one ended. */
  function Picked(text: string, rule: Rule, ms: seq<Match>, last: nat): (picked: seq<Match>)
    requires InRange(text, ms) && last <= |text|
    ensures InRange(text, picked) && Follow(picked, last)
  {
    if ms == [] then []
    else
      var m := ms[0];
      if m.start < last || !rule.validate(text[m.start..m.end]) then Picked(text, rule, ms[1..], last)
      else [m] + Picked(text, rule, ms[1..], m.end)
  }

  /** Spans in order from `last` on, none overlapping another. */
  predicate Follow(ms: seq<Match>, last: nat) {
    ms == [] || (last <= ms[0].start <= ms[0].end && Follow(ms[1..], ms[0].end))
  }

  function Spliced(text: string, rule: Rule, picked: seq<Match>, last: nat): string
    requires InRange(text, picked) && Follow(picked, last) && last <= |text|
  {
    if picked == [] then text[last..]
    else
      text[last..picked[0].start] + Replacement(text, rule, picked[0])
      + Spliced(text, rule, picked[1..], picked[0].end)
  }

  function Accepted(text: string, rule: Rule): seq<Match>
  {
    Picked(text, rule, rule.find(text), 0)
  }

  /** The text after one rule. */
  function Masked(text: string, rule: Rule): string
  {
    Spliced(text, rule, Accepted(text, rule), 0)
  }

  lemma PickedStep(text: string, rule: Rule, ms: seq<Match>, i: nat, last: nat, out: string)
    requires InRange(text, ms) && i < |ms| && last <= |text|
    ensures InRange(text, ms[i..]) && InRange(text, ms[i + 1..])
    ensures var m := ms[i];
            var picked := Picked(text, rule, ms[i..], last);
            if m.start < last || !rule.validate(text[m.start..m.end]) then
              picked == Picked(text, rule, ms[i + 1..], last)
            else
              |picked| == 1 + |Picked(text, rule, ms[i + 1..], m.end)|
              && out + Spliced(text, rule, picked, last)
                 == out + text[last..m.start] + Replacement(text, rule, m)
                    + Spliced(text, rule, Picked(text, rule, ms[i + 1..], m.end), m.end)
  {
    var m := ms[i];
    assert ms[i..][0] == m && ms[i..][1..] == ms[i + 1..];
    if !(m.start < last || !rule.validate(text[m.start..m.end])) {
      var rest := Picked(text, rule, ms[i + 1..], m.end);
      assert ([m] + rest)[1..] == rest;
      var a, b, c := text[last..m.start], Replacement(text, rule, m), Spliced(text, rule, rest, m.end);
      hide *;
      assert out + (a + b + c) == out + a + b + c;
    }
  }

  method ApplyRule(text: string, rule: Rule) returns (masked: string, count: nat)
    ensures masked == Masked(text, rule) && count == |Accepted(text, rule)|
  {
    var matches := rule.find(text);
    ghost var whole := Picked(text, rule, matches, 0);
    assert matches[0..] == matches;
    assert |matches| == 0 ==> whole == [] && text[0..] == text;
    if |matches| == 0 {
      return text, 0;
    }
    var out: string := [];
    var last: nat := 0;
    count := 0;
    assert out + Spliced(text, rule, whole, 0) == Spliced(text, rule, whole, 0);
    for i := 0 to |matches|
      invariant InRange(text, matches[i..]) && last <= |text|
      invariant count + |Picked(text, rule, matches[i..], last)| == |whole|
      invariant out + Spliced(text, rule, Picked(text, rule, matches[i..], last), last) == Spliced(text, rule, whole, 0)
      invariant count == 0 ==> out == [] && last == 0
    {
      var m := matches[i];
      PickedStep(text, rule, matches, i, last, out);
      if m.start < last {
        continue;
      }
      if !rule.validate(text[m.start..m.end]) {
        continue;
      }
      out := out + text[last..m.start];
      out := out + Replacement(text, rule, m);
      last := m.end;
      count := count + 1;
    }
    assert matches[|matches|..] == [];
    out := out + text[last..];
    if count == 0 {
      assert out == text;
      return text, 0;
    }
    return out, count;
  }

  // ------------------------------------------------------------ what one rule does

  /** The text between the accepted spans, before the first and after the last. */
  function Gaps(text: string, picked: seq<Match>, last: nat): (gaps: seq<string>)
    requires InRange(text, picked) && Follow(picked, last) && last <= |text|
    ensures |gaps| == |picked| + 1
  {
    if picked == [] then [text[last..]]
    else [text[last..picked[0].start]] + Gaps(text, picked[1..], picked[0].end)
  }

  /** Pieces laid out alternately: gap, part, gap, ..., gap. */
  function Interleave(gaps: seq<string>, parts: seq<string>): string
    requires |gaps| == |parts| + 1
  {
    if parts == [] then gaps[0] else gaps[0] + parts[0] + Interleave(gaps[1..], parts[1..])
  }

  function SpanTexts(text: string, picked: seq<Match>): (parts: seq<string>)
    requires InRange(text, picked)
    ensures |parts| == |picked|
  {
    seq(|picked|, i requires 0 <= i < |picked| => text[picked[i].start..picked[i].end])
  }

  function Replacements(text: string, rule: Rule, picked: seq<Match>): (parts: seq<string>)
    requires InRange(text, picked)
    ensures |parts| == |picked|
  {
    seq(|picked|, i requires 0 <= i < |picked| => Replacement(text, rule, picked[i]))
  }

  lemma SpansCons(text: string, rule: Rule, picked: seq<Match>, last: nat)
    requires InRange(text, picked) && Follow(picked, last) && last <= |text| && picked != []
    ensures var m, rest := picked[0], picked[1..];
            InRange(text, rest)
            && last <= m.start <= m.end <= |text| && Follow(rest, m.end)
            && text[last..] == text[last..m.start] + text[m.start..m.end] + text[m.end..]
            && Gaps(text, picked, last) == [text[last..m.start]] + Gaps(text, rest, m.end)
            && SpanTexts(text, picked) == [text[m.start..m.end]] + SpanTexts(text, rest)
            && Replacements(text, rule, picked) == [Replacement(text, rule, m)] + Replacements(text, rule, rest)
            && Spliced(text, rule, picked, last)
               == text[last..m.start] + Replacement(text, rule, m) + Spliced(text, rule, rest, m.end)
  {
    var m := picked[0];
    assert last <= m.start <= m.end <= |text|;
    ThreeParts(text, last, m.start, m.end);
  }

  lemma ThreeParts(text: string, a: nat, b: nat, c: nat)
    requires a <= b <= c <= |text|
    ensures text[a..] == text[a..b] + text[b..c] + text[c..]
  {
  }

  lemma {:induction false} SplicedInterleaves(text: string, rule: Rule, picked: seq<Match>, last: nat)
    requires InRange(text, picked) && Follow(picked, last) && last <= |text|
    ensures text[last..] == Interleave(Gaps(text, picked, last), SpanTexts(text, picked))
    ensures Spliced(text, rule, picked, last)
         == Interleave(Gaps(text, picked, last), Replacements(text, rule, picked))
    decreases |picked|
  {
    if picked != [] {
      hide *;
      SpansCons(text, rule, picked, last);
      var m, rest := picked[0], picked[1..];
      SplicedInterleaves(text, rule, rest, m.end);
      var gap, more := text[last..m.start], Gaps(text, rest, m.end);
      InterleaveCons(gap, more, text[m.start..m.end], SpanTexts(text, rest));
      InterleaveCons(gap, more, Replacement(text, rule, m), Replacements(text, rule, rest));
    }
  }

  lemma InterleaveCons(gap: string, gaps: seq<string>, part: string, parts: seq<string>)
    requires |gaps| == |parts| + 1
    ensures Interleave([gap] + gaps, [part] + parts) == gap + part + Interleave(gaps, parts)
  {
    assert ([gap] + gaps)[1..] == gaps && ([part] + parts)[1..] == parts;
  }

  /** Cut at the accepted spans, the masked text is the text with each span replaced
      once and every character between them kept in order. A span contributes its tag,
      or its first group and the rule's suffix, and nothing else of its text. */
  lemma MaskedExactly(text: string, rule: Rule)
    ensures var picked := Accepted(text, rule);
            var gaps := Gaps(text, picked, 0);
            text == Interleave(gaps, SpanTexts(text, picked))
            && Masked(text, rule) == Interleave(gaps, Replacements(text, rule, picked))
    ensures var picked := Accepted(text, rule);
            var parts := Replacements(text, rule, picked);
            if rule.keep.None? then forall i :: 0 <= i < |parts| ==> parts[i] == "[REDACTED:" + rule.cls + "]"
            else
              forall i :: 0 <= i < |parts| ==>
                parts[i] == text[picked[i].groupStart..picked[i].groupEnd] + rule.keep.value
  {
    SplicedInterleaves(text, rule, Accepted(text, rule), 0);
    assert text[0..] == text;
  }

  function Validated(text: string, rule: Rule, ms: seq<Match>): seq<Match>
    requires InRange(text, ms)
  {
    if ms == [] then []
    else (if rule.validate(text[ms[0].start..ms[0].end]) then [ms[0]] else []) + Validated(text, rule, ms[1..])
  }

  /** Of matches that come in order without overlap, exactly the validated ones are redacted. */
  lemma {:induction false} PickedAreValidated(text: string, rule: Rule, ms: seq<Match>, last: nat, from: nat)
    requires InRange(text, ms) && last <= from && from <= |text| && Follow(ms, from)
    ensures Picked(text, rule, ms, last) == Validated(text, rule, ms)
    decreases |ms|
  {
    if ms != [] {
      var m := ms[0];
      if rule.validate(text[m.start..m.end]) {
        PickedAreValidated(text, rule, ms[1..], m.end, m.end);
      } else {
        PickedAreValidated(text, rule, ms[1..], last, m.end);
      }
    }
  }

  lemma AcceptedExactly(text: string, rule: Rule)
    requires Follow(rule.find(text), 0)
    ensures Accepted(text, rule) == Validated(text, rule, rule.find(text))
  {
    PickedAreValidated(text, rule, rule.find(text), 0, 0);
  }

  // ------------------------------------------------------------ all rules on one text

  /** The text after the rules in order. */
  function Clean(rules: seq<Rule>, text: string): string
    decreases |rules|
  {
    if rules == [] then text else Clean(rules[1..], Masked(text, rules[0]))
  }

  /** How many spans of a class the rules mask, each rule on what the earlier ones left. */
  function Hits(rules: seq<Rule>, text: string, cls: string): nat
    decreases |rules|
  {
    if rules == [] then 0
    else
      (if rules[0].cls == cls then |Accepted(text, rules[0])| else 0)
      + Hits(rules[1..], Masked(text, rules[0]), cls)
  }

  /** Rules run in order, each on what the earlier ones left: a list of rules does to a
      text what its front part does, and then its rear part to the result. */
  lemma {:induction false} CleanInOrder(front: seq<Rule>, rear: seq<Rule>, text: string, cls: string)
    ensures Clean(front + rear, text) == Clean(rear, Clean(front, text))
    ensures Hits(front + rear, text, cls) == Hits(front, text, cls) + Hits(rear, Clean(front, text), cls)
    decreases |front|
  {
    if front == [] {
      assert front + rear == rear;
    } else {
      assert (front + rear)[1..] == front[1..] + rear;
      CleanInOrder(front[1..], rear, Masked(text, front[0]), cls);
    }
  }

  /** No rule leaves the text alone, and one masks it. */
  lemma CleanOne(rule: Rule, text: string, cls: string)
    ensures Clean([], text) == text && Hits([], text, cls) == 0
    ensures Clean([rule], text) == Masked(text, rule)
    ensures Hits([rule], text, cls) == if cls == rule.cls then |Accepted(text, rule)| else 0
  {
    assert [rule][1..] == [];
  }

  datatype Finding = Finding(cls: string, count: nat)

  type Counts = map<string, nat>

  function CountOf(counts: Counts, cls: string): nat {
    if cls in counts then counts[cls] else 0
  }

  ghost predicate Positive(counts: Counts) {
    forall c :: c in counts ==> counts[c] > 0
  }

  /** The findings a tally gives. */
  ghost function FindingsOf(counts: Counts): (findings: seq<Finding>)
    ensures |findings| == |SortedKeys(counts.Keys)|
  {
    var classes := SortedKeys(counts.Keys);
    assert forall c :: c in classes ==> c in Elements(classes);
    seq(|classes|, i requires 0 <= i < |classes| => Finding(classes[i], counts[classes[i]]))
  }

  /** A list of findings reports exactly this tally: sorted by class, no class twice,
      only positive counts. */
  ghost predicate Reports(findings: seq<Finding>, tally: string -> nat) {
    (forall i, j :: 0 <= i < j < |findings| ==> Less(findings[i].cls, findings[j].cls))
    && (forall i :: 0 <= i < |findings| ==> findings[i].count == tally(findings[i].cls) > 0)
    && (forall c :: tally(c) > 0 ==> exists i :: 0 <= i < |findings| && findings[i].cls == c)
  }

  lemma FindingsReport(counts: Counts, tally: string -> nat)
    requires Positive(counts) && forall c :: CountOf(counts, c) == tally(c)
    ensures Reports(FindingsOf(counts), tally)
  {
    var classes, findings := SortedKeys(counts.Keys), FindingsOf(counts);
    assert forall c :: c in classes <==> c in Elements(classes);
    forall c | tally(c) > 0 ensures exists i :: 0 <= i < |findings| && findings[i].cls == c {
      assert CountOf(counts, c) > 0;
      var i :| 0 <= i < |classes| && classes[i] == c;
      assert findings[i].cls == c;
    }
  }

  lemma FindingsAt(counts: Counts, classes: seq<string>)
    requires classes == SortedKeys(counts.Keys)
    ensures forall i :: 0 <= i < |classes| ==>
              classes[i] in counts && FindingsOf(counts)[i] == Finding(classes[i], counts[classes[i]])
  {
    assert forall i :: 0 <= i < |classes| ==> classes[i] in Elements(classes);
  }

  method FindingsFromCounts(counts: Counts) returns (findings: seq<Finding>)
    ensures findings == FindingsOf(counts)
  {
    findings := [];
    var classes := CollectKeys(counts);
    classes := SortStrings(classes);
    ghost var all := FindingsOf(counts);
    FindingsAt(counts, classes);
    hide *;
    for i := 0 to |classes|
      invariant findings == all[..i]
    {
      findings := findings + [Finding(classes[i], counts[classes[i]])];
    }
  }

  /** The tally map a walk shares with the calls below it. */
  class Tally {
    var counts: Counts

    constructor ()
      ensures counts == map[]
    {
      counts := map[];
    }

    method Add(cls: string, n: nat)
      requires n > 0 && Positive(counts)
      modifies this
      ensures Positive(counts)
      ensures forall c :: CountOf(counts, c) == CountOf(old(counts), c) + if c == cls then n else 0
    {
      counts := counts[cls := (if cls in counts then counts[cls] else 0) + n];
    }
  }

  class Redactor {
    const enabled: bool
    const rules: seq<Rule>

    constructor (enabled: bool, rules: seq<Rule>)
      ensures this.enabled == enabled && this.rules == rules
    {
      this.enabled := enabled;
      this.rules := rules;
    }

    /** Runs the rules over `text` into a tally of its own. */
    method MaskAll(text: string) returns (clean: string, counts: Counts)
      ensures clean == Clean(rules, text) && Positive(counts)
      ensures forall c :: CountOf(counts, c) == Hits(rules, text, c)
    {
      var tally := new Tally();
      clean := text;
      assert rules[0..] == rules;
      for i := 0 to |rules|
        invariant Positive(tally.counts)
        invariant Clean(rules[i..], clean) == Clean(rules, text)
        invariant forall c :: CountOf(tally.counts, c) + Hits(rules[i..], clean, c) == Hits(rules, text, c)
      {
        RulesStep(rules, i, clean);
        var masked, n := ApplyRule(clean, rules[i]);
        hide Clean, Hits, CountOf;
        if n > 0 {
          tally.Add(rules[i].cls, n);
        }
        clean := masked;
      }
      assert rules[|rules|..] == [];
      counts := tally.counts;
    }

    method RedactBytes(text: string) returns (clean: string, findings: seq<Finding>)
      ensures clean == CleanText(this, text)
      ensures Reports(findings, TextTally(this, text))
      ensures !enabled ==> clean == text && findings == []
      ensures enabled ==> clean == Clean(rules, text)
    {
      if !enabled {
        return text, [];
      }
      var counts;
      clean, counts := MaskAll(text);
      FindingsReport(counts, TextTally(this, text));
      findings := FindingsFromCounts(counts);
    }

    /** Adds one text's findings to the tally of the whole walk. */
    method AddFindings(findings: seq<Finding>, text: string, tally: Tally)
      requires Reports(findings, TextTally(this, text)) && Positive(tally.counts)
      modifies tally
      ensures Positive(tally.counts)
      ensures forall c :: CountOf(tally.counts, c) == CountOf(old(tally.counts), c) + TextTally(this, text)(c)
    {
      ghost var before := tally.counts;
      for i := 0 to |findings|
        invariant Positive(tally.counts)
        invariant forall c :: CountOf(tally.counts, c) == CountOf(before, c) + SumOf(findings[..i], c)
      {
        assert findings[..i + 1][..i] == findings[..i];
        hide CountOf;
        tally.Add(findings[i].cls, findings[i].count);
      }
      assert findings[..|findings|] == findings;
      forall c ensures SumOf(findings, c) == TextTally(this, text)(c) {
        ReportSum(findings, TextTally(this, text), c);
      }
    }

    /** A copy of `v` with its string leaves masked. */
    method RedactValue(v: Value, tally: Tally) returns (out: Value)
      requires Positive(tally.counts)
      modifies tally
      ensures out == Redacted(this, v)
      ensures Positive(tally.counts)
      ensures forall c :: CountOf(tally.counts, c) == CountOf(old(tally.counts), c) + Total(this, v, c)
      decreases v, 1
    {
      match v
      case Str(text) =>
        var clean, findings := RedactBytes(text);
        AddFindings(findings, text, tally);
        out := Str(clean);
      case Obj(m) =>
        out := RedactMembers(v, tally);
      case Arr(es) =>
        out := RedactElems(es, tally);
      case _ =>
        out := v;
    }

    method RedactMembers(v: Value, tally: Tally) returns (out: Value)
      requires v.Obj? && Positive(tally.counts)
      modifies tally
      ensures out == Redacted(this, v)
      ensures Positive(tally.counts)
      ensures forall c :: CountOf(tally.counts, c) == CountOf(old(tally.counts), c) + Total(this, v, c)
      decreases v, 0
    {
      ghost var before := tally.counts;
      var copy: map<string, Value> := map[];
      var left := v.m.Keys;
      while left != {}
        invariant left <= v.m.Keys && copy.Keys == v.m.Keys - left
        invariant forall k :: k in copy ==> copy[k] == Redacted(this, v.m[k])
        invariant Positive(tally.counts)
        invariant forall c :: CountOf(tally.counts, c) + TotalKeys(this, v, left, c)
                           == CountOf(before, c) + TotalKeys(this, v, v.m.Keys, c)
        decreases left
      {
        var k :| k in left;
        forall c { TotalRemove(this, v, left, k, c); }
        hide CountOf, TotalKeys, Total;
        var masked := RedactValue(v.m[k], tally);
        copy := copy[k := masked];
        left := left - {k};
      }
      out := Obj(copy);
    }

    method RedactElems(es: seq<Value>, tally: Tally) returns (out: Value)
      requires Positive(tally.counts)
      modifies tally
      ensures out == Arr(RedactedAll(this, es))
      ensures Positive(tally.counts)
      ensures forall c :: CountOf(tally.counts, c) == CountOf(old(tally.counts), c) + TotalAll(this, es, c)
      decreases es
    {
      hide *;
      ghost var before := tally.counts;
      ghost var all := RedactedAll(this, es);
      var copy: seq<Value> := [];
      RedactEnds(this, es);
      for i := 0 to |es|
        invariant copy + RedactedAll(this, es[i..]) == all
        invariant Positive(tally.counts)
        invariant forall c :: CountOf(tally.counts, c) + TotalAll(this, es[i..], c)
                           == CountOf(before, c) + TotalAll(this, es, c)
      {
        RedactStep(this, es, i, copy);
        var masked := RedactValue(es[i], tally);
        copy := copy + [masked];
      }
      RedactEnds(this, es);
      assert copy + [] == copy;
      out := Arr(copy);
    }

    method RedactMap(m: map<string, Value>) returns (out: Value, findings: seq<Finding>)
      ensures out == Redacted(this, Obj(m))
      ensures Reports(findings, WalkTally(this, Obj(m)))
    {
      var tally := new Tally();
      out := RedactValue(Obj(m), tally);
      FindingsReport(tally.counts, WalkTally(this, Obj(m)));
      findings := FindingsFromCounts(tally.counts);
    }
  }

  lemma RulesStep(rules: seq<Rule>, i: nat, text: string)
    requires i < |rules|
    ensures Clean(rules[i..], text) == Clean(rules[i + 1..], Masked(text, rules[i]))
    ensures forall c :: Hits(rules[i..], text, c)
              == (if rules[i].cls == c then |Accepted(text, rules[i])| else 0)
                 + Hits(rules[i + 1..], Masked(text, rules[i]), c)
  {
    assert rules[i..][0] == rules[i] && rules[i..][1..] == rules[i + 1..];
  }

  function CleanText(r: Redactor, text: string): string {
    if r.enabled then Clean(r.rules, text) else text
  }

  function TextTally(r: Redactor, text: string): string -> nat {
    (c: string) => if r.enabled then Hits(r.rules, text, c) else 0
  }

  // ------------------------------------------------------------ whole values

  ghost function Redacted(r: Redactor, v: Value): Value
    decreases v, 1
  {
    match v
    case Str(text) => Str(CleanText(r, text))
    case Arr(es) => Arr(RedactedAll(r, es))
    case Obj(m) => Obj(map k | k in m :: Redacted(r, m[k]))
    case _ => v
  }

  ghost function RedactedAll(r: Redactor, es: seq<Value>): (out: seq<Value>)
    ensures |out| == |es|
    ensures forall i :: 0 <= i < |es| ==> out[i] == Redacted(r, es[i])
    decreases es, 0
  {
    if es == [] then [] else [Redacted(r, es[0])] + RedactedAll(r, es[1..])
  }

  /** The spans of a class masked anywhere in a value. */
  ghost function Total(r: Redactor, v: Value, cls: string): nat
    decreases v, 1
  {
    match v
    case Str(text) => TextTally(r, text)(cls)
    case Arr(es) => TotalAll(r, es, cls)
    case Obj(m) => TotalKeys(r, v, m.Keys, cls)
    case _ => 0
  }

  ghost function TotalAll(r: Redactor, es: seq<Value>, cls: string): nat
    decreases es, 0
  {
    if es == [] then 0 else Total(r, es[0], cls) + TotalAll(r, es[1..], cls)
  }

  ghost function TotalKeys(r: Redactor, v: Value, keys: set<string>, cls: string): nat
    requires v.Obj? && keys <= v.m.Keys
    decreases v, 0, keys
  {
    if keys == {} then 0
    else
      var k := Least(keys);
      Total(r, v.m[k], cls) + TotalKeys(r, v, keys - {k}, cls)
  }

  ghost function WalkTally(r: Redactor, v: Value): string -> nat {
    (c: string) => Total(r, v, c)
  }

  /** Any member may be counted first. */
  lemma {:induction false} TotalRemove(r: Redactor, v: Value, keys: set<string>, k: string, cls: string)
    requires v.Obj? && keys <= v.m.Keys && k in keys
    ensures TotalKeys(r, v, keys, cls) == Total(r, v.m[k], cls) + TotalKeys(r, v, keys - {k}, cls)
    decreases keys
  {
    var least := Least(keys);
    if k != least {
      TotalRemove(r, v, keys - {least}, k, cls);
      TotalRemove(r, v, keys - {k}, least, cls);
      assert keys - {least} - {k} == keys - {k} - {least};
    }
  }

  lemma RedactEnds(r: Redactor, es: seq<Value>)
    ensures es[0..] == es && es[|es|..] == []
    ensures [] + RedactedAll(r, es) == RedactedAll(r, es)
    ensures RedactedAll(r, []) == [] && forall c :: TotalAll(r, [], c) == 0
  {
  }

  lemma RedactStep(r: Redactor, es: seq<Value>, i: nat, copy: seq<Value>)
    requires i < |es|
    ensures copy + RedactedAll(r, es[i..]) == copy + [Redacted(r, es[i])] + RedactedAll(r, es[i + 1..])
    ensures forall c :: TotalAll(r, es[i..], c) == Total(r, es[i], c) + TotalAll(r, es[i + 1..], c)
  {
    assert es[i..][0] == es[i] && es[i..][1..] == es[i + 1..];
  }

  function SumOf(findings: seq<Finding>, cls: string): nat {
    if findings == [] then 0
    else
      var n := |findings| - 1;
      SumOf(findings[..n], cls) + if findings[n].cls == cls then findings[n].count else 0
  }

  lemma {:induction false} SumAbsent(findings: seq<Finding>, cls: string)
    requires forall i :: 0 <= i < |findings| ==> findings[i].cls != cls
    ensures SumOf(findings, cls) == 0
  {
    if findings != [] { SumAbsent(findings[..|findings| - 1], cls); }
  }

  lemma {:induction false} SumOnce(findings: seq<Finding>, k: nat)
    requires k < |findings|
    requires forall i :: 0 <= i < |findings| && i != k ==> findings[i].cls != findings[k].cls
    ensures SumOf(findings, findings[k].cls) == findings[k].count
  {
    var n := |findings| - 1;
    if k == n { SumAbsent(findings[..n], findings[k].cls); } else { SumOnce(findings[..n], k); }
  }

  /** A report lists each class once, so adding it up gives the tally. */
  lemma ReportSum(findings: seq<Finding>, tally: string -> nat, cls: string)
    requires Reports(findings, tally)
    ensures SumOf(findings, cls) == tally(cls)
  {
    if k :| 0 <= k < |findings| && findings[k].cls == cls {
      forall i | 0 <= i < |findings| && i != k ensures findings[i].cls != cls {
        if i < k { LessAsymmetric(findings[i].cls, findings[k].cls); }
        if k < i { LessAsymmetric(findings[k].cls, findings[i].cls); }
      }
      SumOnce(findings, k);
    } else {
      SumAbsent(findings, cls);
    }
  }

  // ------------------------------------------------------------ leaf by leaf

  datatype Access = Field(name: string) | Index(at: nat)

  /** The part of a value a path leads to. */
  function At(v: Value, path: seq<Access>): Option<Value>
    decreases |path|
  {
    if path == [] then Some(v)
    else
      match path[0]
      case Field(name) => if v.Obj? && name in v.m then At(v.m[name], path[1..]) else None
      case Index(at) => if v.Arr? && at < |v.elems| then At(v.elems[at], path[1..]) else None
  }

  /** Same paths, same shape, same leaves, except that every string leaf is the
      masked form of the one it replaces. */
  ghost predicate MaskedLike(r: Redactor, before: Value, after: Value) {
    match before
    case Str(text) => after == Str(CleanText(r, text))
    case Arr(es) => after.Arr? && |after.elems| == |es|
    case Obj(m) => after.Obj? && after.m.Keys == m.Keys
    case _ => after == before
  }

  /** Redaction preserves shape, keys and non-string leaves, and masks each string
      leaf on its own, wherever a path leads. */
  lemma {:induction false} LeafByLeaf(r: Redactor, v: Value, path: seq<Access>)
    ensures var before, after := At(v, path), At(Redacted(r, v), path);
            (before.Some? <==> after.Some?) && (before.Some? ==> MaskedLike(r, before.value, after.value))
    decreases |path|
  {
    if path != [] {
      match path[0]
      case Field(name) =>
        if v.Obj? && name in v.m { LeafByLeaf(r, v.m[name], path[1..]); }
      case Index(at) =>
        if v.Arr? && at < |v.elems| { LeafByLeaf(r, v.elems[at], path[1..]); }
    }
  }

  ghost predicate MaskedAlong(r: Redactor, before: Value, after: Value, path: seq<Access>) {
    (At(before, path).Some? <==> At(after, path).Some?)
    && (At(before, path).Some? ==> MaskedLike(r, At(before, path).value, At(after, path).value))
  }

  /** Every path leads to a part of `after` exactly when it leads to a part of `before`,
      and then to what masking makes of that part. */
  ghost predicate MaskedThroughout(r: Redactor, before: Value, after: Value) {
    forall path :: MaskedAlong(r, before, after, path)
  }

  lemma AtField(v: Value, name: string, path: seq<Access>)
    requires v.Obj? && name in v.m
    ensures At(v, [Field(name)] + path) == At(v.m[name], path)
  {
    assert ([Field(name)] + path)[1..] == path;
  }

  lemma AtIndex(v: Value, i: nat, path: seq<Access>)
    requires v.Arr? && i < |v.elems|
    ensures At(v, [Index(i)] + path) == At(v.elems[i], path)
  {
    assert ([Index(i)] + path)[1..] == path;
  }

  lemma MaskedHere(r: Redactor, before: Value, after: Value)
    requires MaskedThroughout(r, before, after)
    ensures MaskedLike(r, before, after)
  {
    assert MaskedAlong(r, before, after, []);
    assert At(before, []) == Some(before) && At(after, []) == Some(after);
  }

  lemma MaskedInField(r: Redactor, before: Value, after: Value, k: string)
    requires MaskedThroughout(r, before, after) && before.Obj? && after.Obj? && k in before.m && k in after.m
    ensures MaskedThroughout(r, before.m[k], after.m[k])
  {
    forall path ensures MaskedAlong(r, before.m[k], after.m[k], path) {
      assert MaskedAlong(r, before, after, [Field(k)] + path);
      AtField(before, k, path);
      AtField(after, k, path);
    }
  }

  lemma MaskedInElem(r: Redactor, before: Value, after: Value, i: nat)
    requires MaskedThroughout(r, before, after) && before.Arr? && after.Arr?
    requires i < |before.elems| && i < |after.elems|
    ensures MaskedThroughout(r, before.elems[i], after.elems[i])
  {
    forall path ensures MaskedAlong(r, before.elems[i], after.elems[i], path) {
      assert MaskedAlong(r, before, after, [Index(i)] + path);
      AtIndex(before, i, path);
      AtIndex(after, i, path);
    }
  }

  lemma {:induction false} MaskedIsRedacted(r: Redactor, before: Value, after: Value)
    requires MaskedThroughout(r, before, after)
    ensures after == Redacted(r, before)
    decreases before
  {
    hide MaskedThroughout;
    MaskedHere(r, before, after);
    match before
    case Obj(m) =>
      forall k | k in m ensures after.m[k] == Redacted(r, m[k]) {
        MaskedInField(r, before, after, k);
        MaskedIsRedacted(r, m[k], after.m[k]);
      }
    case Arr(es) =>
      forall i | 0 <= i < |es| ensures after.elems[i] == Redacted(r, es[i]) {
        MaskedInElem(r, before, after, i);
        MaskedIsRedacted(r, es[i], after.elems[i]);
      }
      assert after.elems == RedactedAll(r, es);
    case _ =>
  }

  /** Redaction is the only map of values that masks each string leaf on its own and
      keeps everything else, wherever a path leads. */
  lemma RedactedExactly(r: Redactor, before: Value, after: Value)
    ensures MaskedThroughout(r, before, after) <==> after == Redacted(r, before)
  {
    if after == Redacted(r, before) {
      forall path ensures MaskedAlong(r, before, after, path) { LeafByLeaf(r, before, path); }
    } else if MaskedThroughout(r, before, after) {
      MaskedIsRedacted(r, before, after);
    }
  }

  /** The values agree here, except that texts may differ in what masking takes out. */
  ghost predicate SameHere(r: Redactor, a: Value, b: Value) {
    match a
    case Str(text) => b.Str? && CleanText(r, text) == CleanText(r, b.s)
    case Arr(es) => b.Arr? && |es| == |b.elems|
    case Obj(m) => b.Obj? && m.Keys == b.m.Keys
    case _ => a == b
  }

  lemma SameHereExactly(r: Redactor, a: Value, b: Value, masked: Value)
    requires MaskedLike(r, b, masked)
    ensures SameHere(r, a, b) <==> MaskedLike(r, a, masked)
  {
  }

  ghost predicate SameAlong(r: Redactor, a: Value, b: Value, path: seq<Access>) {
    (At(a, path).Some? <==> At(b, path).Some?)
    && (At(a, path).Some? ==> SameHere(r, At(a, path).value, At(b, path).value))
  }

  /** Two values that differ, along whatever path, only in what masking takes out. */
  ghost predicate DifferOnlyMasked(r: Redactor, a: Value, b: Value) {
    forall path :: SameAlong(r, a, b, path)
  }

  lemma SameAlongExactly(r: Redactor, a: Value, b: Value, path: seq<Access>)
    ensures SameAlong(r, a, b, path) <==> MaskedAlong(r, a, Redacted(r, b), path)
  {
    LeafByLeaf(r, b, path);
    hide At, Redacted, SameHere, MaskedLike;
    var masked := Redacted(r, b);
    if At(a, path).Some? && At(b, path).Some? {
      SameHereExactly(r, At(a, path).value, At(b, path).value, At(masked, path).value);
    }
  }

  /** Two values are masked alike exactly when they differ in nothing but what masking
      takes out. */
  lemma MaskedAlikeExactly(r: Redactor, a: Value, b: Value)
    ensures Redacted(r, a) == Redacted(r, b) <==> DifferOnlyMasked(r, a, b)
  {
    forall path ensures SameAlong(r, a, b, path) <==> MaskedAlong(r, a, Redacted(r, b), path) {
      SameAlongExactly(r, a, b, path);
    }
    RedactedExactly(r, a, Redacted(r, b));
    hide SameAlong, MaskedAlong, Redacted;
  }

  /** The texts of all string leaves. */
  ghost function Leaves(v: Value): seq<string>
    decreases v, 1
  {
    match v
    case Str(text) => [text]
    case Arr(es) => LeavesAll(es)
    case Obj(m) => LeavesKeys(v, m.Keys)
    case _ => []
  }

  ghost function LeavesAll(es: seq<Value>): seq<string>
    decreases es, 0
  {
    if es == [] then [] else Leaves(es[0]) + LeavesAll(es[1..])
  }

  ghost function LeavesKeys(v: Value, keys: set<string>): seq<string>
    requires v.Obj? && keys <= v.m.Keys
    decreases v, 0, keys
  {
    if keys == {} then [] else var k := Least(keys); Leaves(v.m[k]) + LeavesKeys(v, keys - {k})
  }

  function SumHits(r: Redactor, texts: seq<string>, cls: string): nat {
    if texts == [] then 0 else TextTally(r, texts[0])(cls) + SumHits(r, texts[1..], cls)
  }

  lemma {:induction false} SumHitsConcat(r: Redactor, a: seq<string>, b: seq<string>, cls: string)
    ensures SumHits(r, a + b, cls) == SumHits(r, a, cls) + SumHits(r, b, cls)
  {
    if a == [] {
      assert a + b == b;
    } else {
      assert (a + b)[1..] == a[1..] + b;
      SumHitsConcat(r, a[1..], b, cls);
    }
  }

  /** Each class total is the sum over all string leaves of what the rules mask there. */
  lemma {:induction false} TotalOverLeaves(r: Redactor, v: Value, cls: string)
    ensures Total(r, v, cls) == SumHits(r, Leaves(v), cls)
    decreases v, 1
  {
    match v
    case Str(text) => assert [text][1..] == [];
    case Arr(es) => TotalOverElems(r, es, cls);
    case Obj(m) => TotalOverKeys(r, v, m.Keys, cls);
    case _ =>
  }

  lemma {:induction false} TotalOverElems(r: Redactor, es: seq<Value>, cls: string)
    ensures TotalAll(r, es, cls) == SumHits(r, LeavesAll(es), cls)
    decreases es, 0
  {
    if es != [] {
      TotalOverLeaves(r, es[0], cls);
      TotalOverElems(r, es[1..], cls);
      SumHitsConcat(r, Leaves(es[0]), LeavesAll(es[1..]), cls);
    }
  }

  lemma {:induction false} TotalOverKeys(r: Redactor, v: Value, keys: set<string>, cls: string)
    requires v.Obj? && keys <= v.m.Keys
    ensures TotalKeys(r, v, keys, cls) == SumHits(r, LeavesKeys(v, keys), cls)
    decreases v, 0, keys
  {
    if keys != {} {
      var k := Least(keys);
      TotalOverLeaves(r, v.m[k], cls);
      TotalOverKeys(r, v, keys - {k}, cls);
      SumHitsConcat(r, Leaves(v.m[k]), LeavesKeys(v, keys - {k}), cls);
    }
  }

  // ------------------------------------------------------------ card numbers

  /** The built-in card detector, over the candidates its expression finds. */
  function CardDetector(find: string -> seq<Match>): Detector {
    Detector("credit_card", find, (text: string) => Luhn.CardNumber(text), None)
  }

  /** Among its candidates it masks exactly the ones that are card numbers. */
  lemma {:induction false} CardsExactly(text: string, rule: Rule, ms: seq<Match>, m: Match)
    requires rule == CardDetector(rule.find) && InRange(text, ms)
    ensures m in Validated(text, rule, ms)
         <==> m in ms && m.end <= |text| && m.start <= m.end && Luhn.CardNumber(text[m.start..m.end])
    decreases |ms|
  {
    if ms != [] {
      assert ms == [ms[0]] + ms[1..];
      CardsExactly(text, rule, ms[1..], m);
    }
  }
}
