/** Strings as sequences of Unicode scalar values, their byte-wise order (for
    UTF-8 text the same as the order by code point), and the sorted listing of a
    finite set of keys that `sort.Strings` produces from a map's keys. */
module Text {

  datatype Option<+T> = None | Some(value: T)

  predicate IsDigit(c: char) { '0' <= c <= '9' }

  predicate HasPrefix(s: string, prefix: string) {
    |prefix| <= |s| && s[..|prefix|] == prefix
  }

  /** Strict lexicographic order. */
  predicate Less(a: string, b: string) {
    if a == [] then b != []
    else b != [] && (a[0] < b[0] || (a[0] == b[0] && Less(a[1..], b[1..])))
  }

  lemma {:induction false} LessTotal(a: string, b: string)
    ensures a == b || Less(a, b) || Less(b, a)
  {
    if a != [] && b != [] && a[0] == b[0] {
      LessTotal(a[1..], b[1..]);
      assert a == [a[0]] + a[1..] && b == [b[0]] + b[1..];
    }
  }

  lemma {:induction false} LessAsymmetric(a: string, b: string)
    requires Less(a, b)
    ensures a != b && !Less(b, a)
  {
    if a != [] && a[0] == b[0] {
      LessAsymmetric(a[1..], b[1..]);
    }
  }

  lemma {:induction false} LessTransitive(a: string, b: string, c: string)
    requires Less(a, b) && Less(b, c)
    ensures Less(a, c)
  {
    if a != [] && a[0] == b[0] && b[0] == c[0] {
      LessTransitive(a[1..], b[1..], c[1..]);
    }
  }

  ghost predicate StrictlySorted(keys: seq<string>) {
    forall i, j :: 0 <= i < j < |keys| ==> Less(keys[i], keys[j])
  }

  function Elements<T>(s: seq<T>): set<T> {
    set x | x in s
  }

  ghost predicate IsLeast(m: string, s: set<string>) {
    m in s && forall x :: x in s && x != m ==> Less(m, x)
  }

  lemma {:induction false} LeastExists(s: set<string>)
    requires s != {}
    ensures exists m :: IsLeast(m, s)
  {
    var x :| x in s;
    var rest := s - {x};
    assert s == {x} + rest;
    if rest == {} {
      assert IsLeast(x, s);
    } else {
      LeastExists(rest);
      var m :| IsLeast(m, rest);
      LessTotal(x, m);
      if Less(x, m) {
        forall y | y in s && y != x ensures Less(x, y) {
          if y != m { LessTransitive(x, m, y); }
        }
        assert IsLeast(x, s);
      } else {
        assert IsLeast(m, s);
      }
    }
  }

  ghost function Least(s: set<string>): (m: string)
    requires s != {}
    ensures IsLeast(m, s)
  {
    LeastExists(s);
    var m :| IsLeast(m, s);
    m
  }

  lemma SortedCons(m: string, rest: seq<string>, s: set<string>)
    requires IsLeast(m, s) && StrictlySorted(rest) && Elements(rest) == s - {m}
    ensures StrictlySorted([m] + rest)
    ensures Elements([m] + rest) == s
  {
    var all := [m] + rest;
    forall i, j | 0 <= i < j < |all| ensures Less(all[i], all[j]) {
      if i == 0 { assert rest[j - 1] in Elements(rest); }
    }
    forall x ensures x in all <==> x in s {
      if x in s && x != m { assert x in Elements(rest); }
      if x in rest { assert x in Elements(rest); }
    }
  }

  lemma ElementsEmpty<T>(s: seq<T>)
    ensures Elements(s) == {} <==> s == []
  {
    if s != [] { assert s[0] in Elements(s); }
  }

  /** The keys of a map in the order `sort.Strings` leaves them. */
  ghost function SortedKeys(s: set<string>): (keys: seq<string>)
    ensures StrictlySorted(keys)
    ensures Elements(keys) == s
  {
    if s == {} then []
    else
      var m := Least(s);
      var rest := SortedKeys(s - {m});
      SortedCons(m, rest, s);
      [m] + rest
  }

  /** A strictly sorted sequence is determined by its elements, so the result of
      sorting does not depend on the order in which a map was iterated. */
  lemma {:induction false} SortedUnique(a: seq<string>, b: seq<string>)
    requires StrictlySorted(a) && StrictlySorted(b)
    requires Elements(a) == Elements(b)
    ensures a == b
  {
    if a == [] {
      ElementsEmpty(b);
    } else {
      assert a[0] in Elements(b);
      assert b != [];
      assert b[0] in Elements(a);
      SortedHead(a, b);
      SortedTail(a, b);
      SortedUnique(a[1..], b[1..]);
      assert a == [a[0]] + a[1..] && b == [b[0]] + b[1..];
    }
  }

  lemma SortedHead(a: seq<string>, b: seq<string>)
    requires StrictlySorted(a) && StrictlySorted(b) && a != [] && b != []
    requires a[0] in Elements(b) && b[0] in Elements(a)
    ensures a[0] == b[0]
  {
    var i :| 0 <= i < |a| && a[i] == b[0];
    var j :| 0 <= j < |b| && b[j] == a[0];
    if i != 0 && j != 0 {
      LessAsymmetric(a[0], a[i]);
    }
  }

  lemma SortedTail(a: seq<string>, b: seq<string>)
    requires StrictlySorted(a) && StrictlySorted(b) && a != [] && b != []
    requires a[0] == b[0] && Elements(a) == Elements(b)
    ensures Elements(a[1..]) == Elements(b[1..])
  {
    forall x | x in Elements(a) && x != a[0] ensures x in a[1..] && x in b[1..] {
      var i :| 0 <= i < |a| && a[i] == x;
      assert a[1..][i - 1] == x;
      assert x in Elements(b);
      var j :| 0 <= j < |b| && b[j] == x;
      assert b[1..][j - 1] == x;
    }
    if a[0] in a[1..] {
      var i :| 0 <= i < |a[1..]| && a[1..][i] == a[0];
      LessAsymmetric(a[0], a[i + 1]);
    }
    if b[0] in b[1..] {
      var j :| 0 <= j < |b[1..]| && b[1..][j] == b[0];
      LessAsymmetric(b[0], b[j + 1]);
    }
    assert forall x :: x in a[1..] ==> x in Elements(a);
    assert forall x :: x in b[1..] ==> x in Elements(b);
  }

  /** The keys of a map in whatever order iteration meets them. */
  method CollectKeys<V>(m: map<string, V>) returns (keys: seq<string>)
    ensures Elements(keys) == m.Keys
    ensures forall i, j :: 0 <= i < j < |keys| ==> keys[i] != keys[j]
  {
    keys := [];
    var left := m.Keys;
    while left != {}
      invariant Elements(keys) + left == m.Keys && Elements(keys) !! left
      invariant forall i, j :: 0 <= i < j < |keys| ==> keys[i] != keys[j]
      decreases left
    {
      var k :| k in left;
      assert forall i :: 0 <= i < |keys| ==> keys[i] in Elements(keys);
      assert Elements(keys + [k]) == Elements(keys) + {k};
      keys := keys + [k];
      left := left - {k};
    }
  }

  /** `sort.Strings` on a slice of distinct keys, as an insertion sort. */
  method SortStrings(keys: seq<string>) returns (sorted: seq<string>)
    requires forall i, j :: 0 <= i < j < |keys| ==> keys[i] != keys[j]
    ensures sorted == SortedKeys(Elements(keys))
  {
    sorted := [];
    for n := 0 to |keys|
      invariant StrictlySorted(sorted)
      invariant Elements(sorted) == Elements(keys[..n])
    {
      var at := 0;
      while at < |sorted| && Less(sorted[at], keys[n])
        invariant 0 <= at <= |sorted|
        invariant forall i :: 0 <= i < at ==> Less(sorted[i], keys[n])
      {
        at := at + 1;
      }
      assert keys[..n + 1] == keys[..n] + [keys[n]];
      InsertKeepsSorted(sorted, at, keys[n], keys[..n]);
      sorted := sorted[..at] + [keys[n]] + sorted[at..];
    }
    assert keys[..|keys|] == keys;
    SortedUnique(sorted, SortedKeys(Elements(keys)));
  }

  lemma InsertKeepsSorted(sorted: seq<string>, at: nat, k: string, seen: seq<string>)
    requires StrictlySorted(sorted) && at <= |sorted|
    requires Elements(sorted) == Elements(seen) && k !in seen
    requires forall i :: 0 <= i < at ==> Less(sorted[i], k)
    requires at < |sorted| ==> !Less(sorted[at], k)
    ensures StrictlySorted(sorted[..at] + [k] + sorted[at..])
    ensures Elements(sorted[..at] + [k] + sorted[at..]) == Elements(seen + [k])
  {
    var after := sorted[..at] + [k] + sorted[at..];
    if at < |sorted| {
      assert sorted[at] in Elements(sorted);
      LessTotal(sorted[at], k);
      forall i | at < i < |sorted| ensures Less(k, sorted[i]) {
        LessTransitive(k, sorted[at], sorted[i]);
      }
    }
    forall x ensures x in after <==> x in Elements(sorted) || x == k {
      if x in Elements(sorted) {
        var i :| 0 <= i < |sorted| && sorted[i] == x;
        assert if i < at then after[i] == x else after[i + 1] == x;
      }
      if x == k { assert after[at] == x; }
    }
  }

  // ------------------------------------------------------------ sequences

  lemma Assoc<T>(a: seq<T>, b: seq<T>, c: seq<T>)
    ensures a + b + c == a + (b + c)
  {
  }

  lemma NothingAdded<T>(a: seq<T>)
    ensures a + [] == a && [] + a == a
  {
  }

  lemma Uncons<T>(a: seq<T>, b: seq<T>)
    requires a != []
    ensures a == [a[0]] + a[1..] && a + b == [a[0]] + (a[1..] + b)
  {
  }

  // ------------------------------------------------------------ splitting

  predicate Avoids(s: string, c: char) {
    c !in s
  }

  /** `strings.Split` by one character. */
  function Split(d: char, s: string): (parts: seq<string>)
    ensures parts != []
  {
    if s == [] then [[]]
    else
      var rest := Split(d, s[1..]);
      if s[0] == d then [[]] + rest else [[s[0]] + rest[0]] + rest[1..]
  }

  /** Splitting text joins the last part of the first half to the first of the second. */
  function Joined<T>(a: seq<seq<T>>, b: seq<seq<T>>): (r: seq<seq<T>>)
    requires a != [] && b != []
    ensures |r| == |a| + |b| - 1
  {
    a[..|a| - 1] + [a[|a| - 1] + b[0]] + b[1..]
  }

  lemma JoinedHead<T>(x: T, a: seq<seq<T>>, b: seq<seq<T>>)
    requires a != [] && b != []
    ensures Joined([[x] + a[0]] + a[1..], b) == [[x] + Joined(a, b)[0]] + Joined(a, b)[1..]
  {
    if |a| == 1 {
      assert [x] + (a[0] + b[0]) == [x] + a[0] + b[0];
    }
  }

  lemma JoinedEmpty<T>(a: seq<seq<T>>, b: seq<seq<T>>)
    requires a != [] && b != []
    ensures Joined([[]] + a, b) == [[]] + Joined(a, b)
    ensures Joined([[]], b) == b
  {
    assert [] + b[0] == b[0];
  }

  lemma SplitStep(d: char, c: char, rest: string)
    ensures Split(d, [c] + rest)
         == if c == d then [[]] + Split(d, rest) else [[c] + Split(d, rest)[0]] + Split(d, rest)[1..]
  {
    assert ([c] + rest)[1..] == rest;
  }

  lemma {:induction false} SplitConcat(d: char, a: string, b: string)
    ensures Split(d, a + b) == Joined(Split(d, a), Split(d, b))
  {
    if a == [] {
      assert a + b == b;
      JoinedEmpty(Split(d, b), Split(d, b));
    } else {
      hide *;
      var sa, sb := Split(d, a[1..]), Split(d, b);
      assert a == [a[0]] + a[1..] && a + b == [a[0]] + (a[1..] + b);
      SplitConcat(d, a[1..], b);
      SplitStep(d, a[0], a[1..]);
      SplitStep(d, a[0], a[1..] + b);
      JoinedHead(a[0], sa, sb);
      JoinedEmpty(sa, sb);
    }
  }

  lemma {:induction false} SplitWithout(d: char, s: string)
    requires Avoids(s, d)
    ensures Split(d, s) == [s]
  {
    if s != [] {
      assert s[0] in s && forall c :: c in s[1..] ==> c in s;
      SplitWithout(d, s[1..]);
      assert s == [s[0]] + s[1..];
      SplitStep(d, s[0], s[1..]);
    }
  }

  // ------------------------------------------------------------ subsequences

  /** `a` can be had from `b` by leaving elements out. */
  predicate Subsequence<T(==)>(a: seq<T>, b: seq<T>) {
    if a == [] then true
    else if b == [] then false
    else if a[0] == b[0] && Subsequence(a[1..], b[1..]) then true
    else Subsequence(a, b[1..])
  }

  lemma {:induction false} SubsequenceSkip<T>(a: seq<T>, x: T, b: seq<T>)
    requires Subsequence(a, b)
    ensures Subsequence(a, [x] + b)
  {
    assert ([x] + b)[1..] == b;
  }

  lemma SubsequenceTake<T>(x: T, a: seq<T>, b: seq<T>)
    requires Subsequence(a, b)
    ensures Subsequence([x] + a, [x] + b)
  {
    assert ([x] + a)[1..] == a && ([x] + b)[1..] == b;
  }

  lemma {:induction false} SubsequenceConcat<T>(a: seq<T>, b: seq<T>, c: seq<T>, d: seq<T>)
    requires Subsequence(a, b) && Subsequence(c, d)
    ensures Subsequence(a + c, b + d)
    decreases |b|
  {
    if b == [] {
      assert a + c == c && b + d == d;
    } else {
      assert b + d == [b[0]] + (b[1..] + d);
      if a == [] {
        SubsequenceConcat([], b[1..], c, d);
        SubsequenceSkip(a + c, b[0], b[1..] + d);
      } else if a[0] == b[0] && Subsequence(a[1..], b[1..]) {
        SubsequenceConcat(a[1..], b[1..], c, d);
        assert a + c == [b[0]] + (a[1..] + c);
        SubsequenceTake(b[0], a[1..] + c, b[1..] + d);
      } else {
        SubsequenceConcat(a, b[1..], c, d);
        SubsequenceSkip(a + c, b[0], b[1..] + d);
      }
    }
  }

  lemma {:induction false} SubsequenceSnoc<T>(a: seq<T>, b: seq<T>, e: T)
    requires Subsequence(a, b)
    ensures Subsequence(a, b + [e]) && Subsequence(a + [e], b + [e])
  {
    SubsequenceConcat(a, b, [], [e]);
    assert Subsequence<T>([], [e]);
    assert [e][1..] == [];
    SubsequenceConcat(a, b, [e], [e]);
    assert a + [] == a;
  }

  lemma {:induction false} SubsequenceTransitive<T>(a: seq<T>, b: seq<T>, c: seq<T>)
    requires Subsequence(a, b) && Subsequence(b, c)
    ensures Subsequence(a, c)
    decreases |c|
  {
    if a != [] {
      if b[0] == c[0] && Subsequence(b[1..], c[1..]) {
        if a[0] == b[0] && Subsequence(a[1..], b[1..]) {
          SubsequenceTransitive(a[1..], b[1..], c[1..]);
        } else {
          SubsequenceTransitive(a, b[1..], c[1..]);
        }
      } else {
        SubsequenceTransitive(a, b, c[1..]);
      }
    }
  }

  lemma {:induction false} SubsequenceRefl<T>(a: seq<T>)
    ensures Subsequence(a, a)
  {
    if a != [] { SubsequenceRefl(a[1..]); }
  }
}
