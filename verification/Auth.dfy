/** How a presented token becomes an identity, a role and scopes, and what a scope
    lets through (pkg/mcp/server.go). */
module Auth {
  import opened Text

  // ------------------------------------------------------------ scopes

  /** `unicode.IsSpace`. */
  predicate IsSpace(c: char) {
    c in "\t\n\r " || c in ['\U{0B}', '\U{0C}', '\U{85}', '\U{A0}', '\U{1680}', '\U{2028}', '\U{2029}', '\U{202F}',
         '\U{205F}', '\U{3000}']
    || '\U{2000}' <= c <= '\U{200A}'
  }

  function TrimLeft(s: string): (r: string)
    ensures |r| <= |s| && (r != [] ==> !IsSpace(r[0]))
  {
    if s != [] && IsSpace(s[0]) then TrimLeft(s[1..]) else s
  }

  function TrimRight(s: string): (r: string)
    ensures r <= s && (r != [] ==> !IsSpace(r[|r| - 1]))
  {
    if s != [] && IsSpace(s[|s| - 1]) then TrimRight(s[..|s| - 1]) else s
  }

  function TrimSpace(s: string): (r: string)
    ensures r != [] ==> !IsSpace(r[0]) && !IsSpace(r[|r| - 1])
  {
    TrimRight(TrimLeft(s))
  }

  /** Trimming takes off exactly the space around a text. */
  lemma TrimExact(left: string, s: string, right: string)
    requires (forall c :: c in left + right ==> IsSpace(c))
    requires s != [] ==> !IsSpace(s[0]) && !IsSpace(s[|s| - 1])
    ensures TrimSpace(left + s + right) == s
  {
    TrimsLeft(left, s + right);
    assert left + s + right == left + (s + right);
    if s == [] {
      assert s + right == right;
      TrimsLeft(right, []);
      assert right + [] == right;
    } else {
      assert TrimLeft(s + right) == s + right;
      TrimsRight(s, right);
    }
  }

  lemma {:induction false} TrimsLeft(left: string, s: string)
    requires forall c :: c in left ==> IsSpace(c)
    ensures TrimLeft(left + s) == TrimLeft(s)
  {
    if left == [] {
      assert left + s == s;
    } else {
      assert left[0] in left && (left + s)[1..] == left[1..] + s;
      TrimsLeft(left[1..], s);
    }
  }

  lemma TrimRightStep(s: string, c: char)
    requires IsSpace(c)
    ensures TrimRight(s + [c]) == TrimRight(s)
  {
    assert (s + [c])[..|s|] == s;
  }

  lemma {:induction false} TrimsRight(s: string, right: string)
    requires forall c :: c in right ==> IsSpace(c)
    ensures TrimRight(s + right) == TrimRight(s)
  {
    hide *;
    if right == [] {
      assert s + right == s;
    } else {
      var n := |right| - 1;
      assert right[n] in right;
      assert s + right == s + right[..n] + [right[n]];
      TrimRightStep(s + right[..n], right[n]);
      TrimsRight(s, right[..n]);
    }
  }

  function Kept(parts: seq<string>): seq<string> {
    if parts == [] then []
    else (if TrimSpace(parts[0]) != [] then [TrimSpace(parts[0])] else []) + Kept(parts[1..])
  }

  /** The scopes of a stored comma-separated list. */
  function Scopes(list: string): seq<string> {
    Kept(Split(',', list))
  }

  method ParseScopes(list: string) returns (scopes: seq<string>)
    ensures scopes == Scopes(list)
  {
    hide IsSpace, TrimSpace, Split;
    scopes := [];
    var parts := Split(',', list);
    for i := 0 to |parts|
      invariant scopes + Kept(parts[i..]) == Scopes(list)
    {
      assert parts[i..][1..] == parts[i + 1..];
      var t := TrimSpace(parts[i]);
      if t != [] {
        scopes := scopes + [t];
      }
    }
  }

  function CommaList(scopes: seq<string>): string {
    if scopes == [] then []
    else if |scopes| == 1 then scopes[0]
    else scopes[0] + ("," + CommaList(scopes[1..]))
  }

  /** A scope as it can be stored: not empty, trimmed, without a comma. */
  predicate Storable(scope: string) {
    scope != [] && Avoids(scope, ',') && !IsSpace(scope[0]) && !IsSpace(scope[|scope| - 1])
  }

  /** Storing scopes as a list and parsing it gives the scopes back. */
  lemma {:induction false} ScopesRoundTrip(scopes: seq<string>)
    requires forall s :: s in scopes ==> Storable(s)
    ensures Scopes(CommaList(scopes)) == scopes
  {
    if scopes == [] {
      assert Split(',', []) == [[]] && Kept([[]][1..]) == [];
      return;
    }
    var first, rest := scopes[0], scopes[1..];
    assert first in scopes && Storable(first);
    SplitWithout(',', first);
    assert first + [] == first;
    if |scopes| == 1 {
      KeptCons(first, []);
      assert scopes == [first] + [];
    } else {
      assert forall s :: s in rest ==> s in scopes;
      ScopesRoundTrip(rest);
      ListSplit(first, CommaList(rest));
      KeptCons(first, Split(',', CommaList(rest)));
      assert scopes == [first] + rest;
    }
  }

  lemma KeptCons(scope: string, parts: seq<string>)
    requires Storable(scope)
    ensures Kept([scope] + parts) == [scope] + Kept(parts)
  {
    assert TrimSpace(scope) == scope;
    assert ([scope] + parts)[1..] == parts;
  }

  lemma ListSplit(first: string, more: string)
    requires Avoids(first, ',')
    ensures Split(',', first + ("," + more)) == [first] + Split(',', more)
  {
    SplitWithout(',', first);
    SplitConcat(',', first, "," + more);
    SplitStep(',', ',', more);
    hide *;
    assert first + [] == first;
    JoinedFirst(first, Split(',', more));
  }

  lemma JoinedFirst(first: string, parts: seq<string>)
    requires parts != []
    ensures Joined([first], [[]] + parts) == [first] + parts
  {
    assert first + [] == first;
    assert ([[]] + parts)[1..] == parts;
  }

  /** Every parsed scope is trimmed and not empty. */
  lemma {:induction false} KeptClean(parts: seq<string>, s: string)
    requires s in Kept(parts)
    ensures s != [] && !IsSpace(s[0]) && !IsSpace(s[|s| - 1])
  {
    if TrimSpace(parts[0]) == [] || s != TrimSpace(parts[0]) { KeptClean(parts[1..], s); }
  }

  /** A scope matches a tool name exactly, or as a prefix when it ends in a star. */
  predicate ScopeMatches(tool: string, scope: string) {
    tool == scope || (scope != [] && scope[|scope| - 1] == '*' && HasPrefix(tool, scope[..|scope| - 1]))
  }

  /** A scope that ends in a star matches what begins with the rest of it, any other
      only itself. */
  lemma ScopeExactly(tool: string, scope: string)
    ensures ScopeMatches(tool, scope + "*") <==> exists rest :: tool == scope + rest
    ensures scope == [] || scope[|scope| - 1] != '*' ==> (ScopeMatches(tool, scope) <==> tool == scope)
  {
    var starred := scope + "*";
    assert starred[|starred| - 1] == '*' && starred[..|starred| - 1] == scope;
    if HasPrefix(tool, scope) { assert tool == scope + tool[|scope|..]; }
    if rest :| tool == scope + rest { assert tool[..|scope|] == scope; }
  }

  ghost predicate InScope(tool: string, scopes: seq<string>) {
    exists i :: 0 <= i < |scopes| && ScopeMatches(tool, scopes[i])
  }

  method MatchScope(tool: string, scopes: seq<string>) returns (ok: bool)
    ensures ok <==> InScope(tool, scopes)
  {
    for i := 0 to |scopes|
      invariant forall k :: 0 <= k < i ==> !ScopeMatches(tool, scopes[k])
    {
      var scope := scopes[i];
      if scope == "*" {
        assert HasPrefix(tool, scope[..0]) && ScopeMatches(tool, scope);
        return true;
      }
      if scope != [] && scope[|scope| - 1] == '*' {
        var prefix := scope[..|scope| - 1];
        if HasPrefix(tool, prefix) {
          assert ScopeMatches(tool, scope);
          return true;
        }
      }
      if tool == scope {
        assert ScopeMatches(tool, scope);
        return true;
      }
    }
    return false;
  }

  // ------------------------------------------------------------ tokens

  datatype ClientToken = ClientToken(name: string, role: string, scopes: string, enabled: bool)

  datatype Claims = Claims(subject: string, scopes: seq<string>)

  /** What tokens are good for at some moment: the gateway's own token (empty when
      none is set), the client tokens and whether they can be looked up, and the
      access tokens the OAuth validator accepts (none when OAuth is off). */
  datatype Credentials = Credentials(
    gateway: string,
    clients: map<string, ClientToken>,
    lookupOk: bool,
    oauth: Option<map<string, Claims>>)

  datatype Identity = Identity(name: string, role: string, scopes: seq<string>)

  predicate IsMaster(c: Credentials, token: string) {
    c.gateway != [] && token == c.gateway
  }

  predicate IsClient(c: Credentials, token: string) {
    c.lookupOk && token in c.clients && c.clients[token].enabled
  }

  function Resolved(c: Credentials, token: string): Option<Identity> {
    if IsMaster(c, token) then Some(Identity("master", "admin", ["*"]))
    else if IsClient(c, token) then
      Some(Identity(c.clients[token].name, c.clients[token].role, Scopes(c.clients[token].scopes)))
    else if c.oauth.Some? && token in c.oauth.value then
      var claims := c.oauth.value[token];
      Some(Identity(if claims.subject == [] then "oauth-client" else claims.subject, "user", claims.scopes))
    else None
  }

  /** What a token resolves to, case by case: the gateway's own is the admin with every
      scope; any other that is an enabled client's gets the name, the role and the scopes
      of the client's row; one the OAuth validator accepts is a plain user with the scopes
      of its claims; nothing else resolves. */
  ghost predicate ResolvesTo(c: Credentials, token: string, r: Option<Identity>) {
    var master := c.gateway != [] && token == c.gateway;
    var client := c.lookupOk && token in c.clients && c.clients[token].enabled;
    var oauth := c.oauth.Some? && token in c.oauth.value;
    (r.Some? <==> master || client || oauth)
    && (master ==> r == Some(Identity("master", "admin", ["*"])))
    && (!master && client ==>
          r.value.name == c.clients[token].name && r.value.role == c.clients[token].role
          && forall ss :: (forall s :: s in ss ==> Storable(s)) && c.clients[token].scopes == CommaList(ss) ==>
               r.value.scopes == ss)
    && (!master && !client && oauth ==>
          var claims := c.oauth.value[token];
          r.value.role == "user" && r.value.scopes == claims.scopes
          && (claims.subject != [] ==> r.value.name == claims.subject)
          && (claims.subject == [] ==> r.value.name == "oauth-client"))
  }

  lemma ResolvedExactly(c: Credentials, token: string)
    ensures ResolvesTo(c, token, Resolved(c, token))
  {
    if IsClient(c, token) {
      forall ss | (forall s :: s in ss ==> Storable(s)) && c.clients[token].scopes == CommaList(ss)
        ensures Scopes(c.clients[token].scopes) == ss
      {
        ScopesRoundTrip(ss);
      }
    }
    hide Scopes, Storable, CommaList;
  }

  method ResolveAuth(c: Credentials, token: string) returns (r: Option<Identity>)
    ensures r == Resolved(c, token) && ResolvesTo(c, token, r)
    ensures r.Some? && r.value.role == "admin" <==>
              IsMaster(c, token) || (IsClient(c, token) && c.clients[token].role == "admin")
  {
    ResolvedExactly(c, token);
    hide ResolvesTo;
    if c.gateway != [] && token == c.gateway {
      return Some(Identity("master", "admin", ["*"]));
    }
    if c.lookupOk && token in c.clients && c.clients[token].enabled {
      var ct := c.clients[token];
      var scopes := ParseScopes(ct.scopes);
      return Some(Identity(ct.name, ct.role, scopes));
    }
    if c.oauth.Some? && token in c.oauth.value {
      var claims := c.oauth.value[token];
      var name := claims.subject;
      if name == [] {
        name := "oauth-client";
      }
      return Some(Identity(name, "user", claims.scopes));
    }
    return None;
  }

  /** The admin role comes from the gateway token or from an enabled client token
      with that role; no OAuth token ever adds or removes it. */
  lemma AdminOnlyProvisioned(c: Credentials, token: string)
    ensures Resolved(c, token).Some? && Resolved(c, token).value.role == "admin" <==>
              Resolved(c.(oauth := None), token).Some? && Resolved(c.(oauth := None), token).value.role == "admin"
    ensures Resolved(c, token).Some? && Resolved(c, token).value.role == "admin" <==>
              IsMaster(c, token) || (IsClient(c, token) && c.clients[token].role == "admin")
  {
    assert "user" != "admin";
  }
}
