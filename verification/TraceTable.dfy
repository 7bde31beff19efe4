// The trace rule table: what tracelib writes into one buffer and darwintrace scans with a moving pointer.
module TraceTable {
  import opened CTypes
  import opened PathCleanup

  datatype Rule =
    | Allow(path: seq<CharCode>)
    | Redirect(path: seq<CharCode>, target: seq<CharCode>)
    | Ask(path: seq<CharCode>)

  predicate Proper(rule: Rule) {
    && rule.path != [] && IsString(rule.path)
    && (rule.Redirect? ==> rule.target != [] && IsString(rule.target))
  }

  predicate AllProper(rules: seq<Rule>) {
    forall rule :: rule in rules ==> Proper(rule)
  }

  // path NUL 0 NUL, path NUL 1 target NUL, path NUL 2 NUL
  function Entry(rule: Rule): seq<CharCode> {
    rule.path + [0] +
    match rule
    case Allow(_) => [0, 0]
    case Redirect(_, target) => [1] + target + [0]
    case Ask(_) => [2, 0]
  }

  function Table(rules: seq<Rule>): seq<CharCode> {
    if rules == [] then [] else Entry(rules[0]) + Table(rules[1..])
  }

  // The bytes of a table with one rule of each kind: "/a" is open, "/b" is looked for below "/c", and "/d" is asked for.
  lemma TableBytes()
    ensures Table([Allow([47, 97]), Redirect([47, 98], [47, 99]), Ask([47, 100])]) ==
      [47, 97, 0, 0, 0] + ([47, 98, 0, 1, 47, 99, 0] + [47, 100, 0, 2, 0])
  {
    var a, b, c := Allow([47, 97]), Redirect([47, 98], [47, 99]), Ask([47, 100]);
    assert [a, b, c][1..] == [b, c] && [b, c][1..] == [c] && [c][1..] == [];
    assert Table([c]) == Entry(c) + [];
    assert Table([b, c]) == Entry(b) + Table([c]);
    assert Table([a, b, c]) == Entry(a) + Table([b, c]);
  }

  // The receiver adds a NUL.
  function Received(rules: seq<Rule>): (table: seq<CharCode>)
    ensures |table| > 0
  {
    Table(rules) + [0]
  }

  // NoRoom: a redirection for a caller who cannot take a new path, which counts as a refusal.
  datatype Outcome = Allowed | Redirected(newpath: seq<CharCode>) | NoRoom | Asked | Violation

  function Redirection(target: seq<CharCode>, p: seq<CharCode>): seq<CharCode> {
    target + (if target != [] && target[|target| - 1] == SLASH then [] else [SLASH]) + p
  }

  function Act(rule: Rule, p: seq<CharCode>, takesNew: bool): Outcome {
    match rule
    case Allow(_) => Allowed
    case Redirect(_, target) => if takesNew then Redirected(Redirection(target, p)) else NoRoom
    case Ask(_) => Asked
  }

  function Decide(rules: seq<Rule>, p: seq<CharCode>, takesNew: bool): Outcome {
    if rules == [] then Violation
    else if rules[0].path <= p then Act(rules[0], p, takesNew)
    else Decide(rules[1..], p, takesNew)
  }

  // The first rule whose path is a prefix decides; without one the access is a violation.
  lemma {:induction false} FirstPrefixDecides(rules: seq<Rule>, p: seq<CharCode>, takesNew: bool, k: nat)
    requires k <= |rules| && forall i :: 0 <= i < k ==> !(rules[i].path <= p)
    ensures k < |rules| && rules[k].path <= p ==> Decide(rules, p, takesNew) == Act(rules[k], p, takesNew)
    ensures k == |rules| ==> Decide(rules, p, takesNew) == Violation
  {
    if k > 0 {
      assert forall i :: 0 <= i < k - 1 ==> rules[1..][i] == rules[i + 1];
      FirstPrefixDecides(rules[1..], p, takesNew, k - 1);
    }
  }

  // A redirected path names the same file below the target.
  lemma RedirectionKeepsNames(target: seq<CharCode>, p: seq<CharCode>)
    ensures Names(Redirection(target, p), []) == Names(target, []) + Names(p, [])
  {
    if target != [] && target[|target| - 1] == SLASH {
      var x := target[..|target| - 1];
      assert target == x + [SLASH] == x + [SLASH] + [];
      NamesAroundSlash(x, p, []);
      NamesAroundSlash(x, [], []);
      assert Redirection(target, p) == x + [SLASH] + p;
    } else {
      NamesAroundSlash(target, p, []);
    }
  }

  lemma {:induction false} TableAppend(rules: seq<Rule>, rule: Rule)
    ensures Table(rules + [rule]) == Table(rules) + Entry(rule)
  {
    hide Entry;
    if rules == [] {
      assert [rule][1..] == [];
    } else {
      TableAppend(rules[1..], rule);
      assert (rules + [rule])[1..] == rules[1..] + [rule];
    }
  }

  // The string that starts at position t of a buffer.
  predicate StringAt(b: seq<CharCode>, t: nat, s: seq<CharCode>) {
    t + |s| < |b| && b[t..t + |s|] == s && b[t + |s|] == 0 && IsString(s)
  }

  lemma CharactersAt(b: seq<CharCode>, t: nat, s: seq<CharCode>, n: nat)
    requires StringAt(b, t, s) && n <= |s|
    ensures b[t + n] == CodeAt(s, n) && (b[t + n] == 0 <==> n == |s|)
  {
    if n < |s| {
      assert b[t..t + |s|][n] == s[n];
    }
  }

  method StrLen(b: seq<CharCode>, t: nat, ghost s: seq<CharCode>) returns (n: nat)
    requires StringAt(b, t, s)
    ensures n == |s|
  {
    n := 0;
    while b[t + n] != 0
      invariant n <= |s|
      decreases |s| - n
    {
      n := n + 1;
    }
    CharactersAt(b, t, s, n);
  }

  function CodeAt(s: seq<CharCode>, i: nat): CharCode {
    if i < |s| then s[i] else 0
  }

  // Compares two C strings up to the end of the prefix.
  method StrBeginsWith(str: seq<CharCode>, b: seq<CharCode>, t: nat, ghost prefix: seq<CharCode>) returns (begins: bool)
    requires IsString(str) && StringAt(b, t, prefix)
    ensures begins <==> prefix <= str
  {
    var k := 1;
    var s, p := CodeAt(str, 0), b[t];
    assert p == CodeAt(prefix, 0);
    while p != 0 && p == s
      invariant 1 <= k <= |prefix| + 1 && k <= |str| + 1
      invariant p == CodeAt(prefix, k - 1) && s == CodeAt(str, k - 1)
      invariant str[..k - 1] == prefix[..k - 1]
      decreases |prefix| + 1 - k
    {
      s := CodeAt(str, k);
      p := b[t + k];
      k := k + 1;
    }
    begins := p == 0;
  }

  lemma Behind(b: seq<CharCode>, t: nat, x: seq<CharCode>, y: seq<CharCode>)
    requires t <= |b| && b[t..] == x + y
    ensures t + |x| <= |b| && b[t + |x|..] == y
  {
    assert b[t + |x|..] == b[t..][|x|..];
  }

  function Code(rule: Rule): CharCode {
    match rule
    case Allow(_) => 0
    case Redirect(_, _) => 1
    case Ask(_) => 2
  }

  lemma PathAt(b: seq<CharCode>, t: nat, rule: Rule, rest: seq<CharCode>)
    requires t <= |b| && b[t..] == Entry(rule) + rest && Proper(rule)
    ensures StringAt(b, t, rule.path) && b[t] != 0
    ensures t + |rule.path| + 1 < |b| && b[t + |rule.path| + 1] == Code(rule)
  {
    var path := rule.path;
    var action := Entry(rule)[|path| + 1..];
    assert Entry(rule) == path + [0] + action;
    assert b[t..] == path + ([0] + action + rest);
    Within(b, t, path, [0] + action + rest);
    CharactersAt(b, t, path, 0);
    Behind(b, t, path, [0] + action + rest);
    assert b[t + |path| + 1] == b[t + |path|..][1] == action[0];
  }

  lemma RedirectShape(rule: Rule, rest: seq<CharCode>)
    requires rule.Redirect?
    ensures Entry(rule) + rest == (rule.path + [0]) + ([1] + (rule.target + ([0] + rest)))
    ensures [1] + (rule.target + ([0] + rest)) == ([1] + rule.target) + ([0] + rest)
  {
    var start, action := rule.path + [0], [1] + rule.target + [0];
    assert Entry(rule) == start + action;
    assert (start + action) + rest == start + (action + rest);
    assert action + rest == [1] + (rule.target + ([0] + rest));
  }

  // The scanner measures a target from its action code on; the redirection copies it from behind the code.
  lemma TargetAt(b: seq<CharCode>, t: nat, rule: Rule, rest: seq<CharCode>)
    requires t <= |b| && b[t..] == Entry(rule) + rest && Proper(rule) && rule.Redirect?
    ensures StringAt(b, t + |rule.path| + 1, [1] + rule.target) && StringAt(b, t + |rule.path| + 2, rule.target)
  {
    var start, tail := rule.path + [0], rule.target + ([0] + rest);
    RedirectShape(rule, rest);
    hide Entry;
    Behind(b, t, start, [1] + tail);
    Within(b, t + |start|, [1] + rule.target, [0] + rest);
    Behind(b, t + |start|, [1], tail);
    Within(b, t + |start| + 1, rule.target, [0] + rest);
  }

  lemma Within(b: seq<CharCode>, t: nat, s: seq<CharCode>, rest: seq<CharCode>)
    requires t <= |b| && b[t..] == s + rest && IsString(s) && rest != [] && rest[0] == 0
    ensures StringAt(b, t, s)
  {
    assert b[t..t + |s|] == b[t..][..|s|] == s;
    assert b[t + |s|] == b[t..][|s|];
  }

  // The rule scan over a received table; p is the cleaned path.
  method FirstRule(filemap: seq<CharCode>, ghost rules: seq<Rule>, p: seq<CharCode>, takesNew: bool)
    returns (o: Outcome)
    requires filemap == Received(rules) && AllProper(rules) && IsString(p)
    ensures o == Decide(rules, p, takesNew)
  {
    hide Entry;
    var t: nat := 0;
    ghost var k := 0;
    while filemap[t] != 0
      invariant k <= |rules| && t < |filemap| && filemap[t..] == Received(rules[k..])
      invariant Decide(rules, p, takesNew) == Decide(rules[k..], p, takesNew)
      decreases |rules| - k
    {
      NotAtEnd(filemap, t, rules[k..]);
      ghost var rule, rest := rules[k], Received(rules[k + 1..]);
      assert rules[k..][1..] == rules[k + 1..] && rule in rules;
      assert filemap[t..] == Entry(rule) + rest;
      PathAt(filemap, t, rule, rest);
      var begins := StrBeginsWith(p, filemap, t, rule.path);
      if begins {
        o := ActionAt(filemap, t, p, takesNew, rule, rest);
        return;
      }
      t := NextEntry(filemap, t, rule, rest);
      k := k + 1;
    }
    AtEnd(filemap, t, rules[k..]);
    o := Violation;
  }

  lemma NotAtEnd(b: seq<CharCode>, t: nat, rules: seq<Rule>)
    requires t < |b| && b[t..] == Received(rules) && b[t] != 0
    ensures rules != []
  {
  }

  lemma AtEnd(b: seq<CharCode>, t: nat, rules: seq<Rule>)
    requires t < |b| && b[t..] == Received(rules) && b[t] == 0 && AllProper(rules)
    ensures rules == []
  {
    if rules != [] {
      PathAt(b, t, rules[0], Received(rules[1..]));
    }
  }

  // The action behind the path that begins at t.
  method ActionAt(filemap: seq<CharCode>, at: nat, p: seq<CharCode>, takesNew: bool, ghost rule: Rule,
                  ghost rest: seq<CharCode>)
    returns (o: Outcome)
    requires at <= |filemap| && filemap[at..] == Entry(rule) + rest && Proper(rule)
    ensures o == Act(rule, p, takesNew)
  {
    hide Entry;
    PathAt(filemap, at, rule, rest);
    var n := StrLen(filemap, at, rule.path);
    var t := at + n + 1;
    match filemap[t] {
      case 0 =>
        o := Allowed;
      case 1 =>
        if !takesNew {
          return NoRoom;
        }
        TargetAt(filemap, at, rule, rest);
        var length := StrLen(filemap, t + 1, rule.target);
        var newpath := filemap[t + 1..t + 1 + length];
        if newpath[|newpath| - 1] != SLASH {
          newpath := newpath + [SLASH];
        }
        newpath := newpath + p;
        o := Redirected(newpath);
      case _ =>
        o := Asked;
    }
  }

  // Skips the path and its action.
  method NextEntry(filemap: seq<CharCode>, at: nat, ghost rule: Rule, ghost rest: seq<CharCode>) returns (t: nat)
    requires at <= |filemap| && filemap[at..] == Entry(rule) + rest && Proper(rule)
    ensures t <= |filemap| && filemap[t..] == rest
  {
    PathAt(filemap, at, rule, rest);
    var n := StrLen(filemap, at, rule.path);
    t := at + n + 1;
    if filemap[t] == 1 {
      TargetAt(filemap, at, rule, rest);
      n := StrLen(filemap, t, [1] + rule.target);
      t := t + n + 1;
    } else {
      t := t + 2;
    }
    Behind(filemap, at, Entry(rule), rest);
  }

  // A relative path is taken below the current directory.
  function Absolute(path: seq<CharCode>, cwd: seq<CharCode>): seq<CharCode> {
    if path != [] && path[0] == SLASH then path
    else cwd + (if cwd != [] && cwd[|cwd| - 1] == SLASH then [] else [SLASH]) + path
  }

  lemma NamesBehindSlash(x: seq<CharCode>, path: seq<CharCode>)
    ensures Names(x + [SLASH] + path, []) == Names(x + [SLASH], []) + Names(path, [])
  {
    assert Names([], []) == [];
    NamesAroundSlash(x, path, []);
    NamesAroundSlash(x, [], []);
    assert x + [SLASH] + [] == x + [SLASH];
  }

  // A relative path names the same file below the current directory; an absolute one is taken as it is.
  lemma AbsoluteKeepsNames(path: seq<CharCode>, cwd: seq<CharCode>)
    requires cwd != []
    ensures path != [] && path[0] == 47 ==> Absolute(path, cwd) == path
    ensures path == [] || path[0] != 47 ==>
      && cwd <= Absolute(path, cwd)
      && Names(Absolute(path, cwd), []) == Names(cwd, []) + Names(path, [])
  {
    hide Names;
    if path == [] || path[0] != SLASH {
      var x := cwd[..|cwd| - 1];
      if cwd[|cwd| - 1] == SLASH {
        assert cwd == x + [SLASH];
        NamesBehindSlash(x, path);
        assert Absolute(path, cwd) == x + [SLASH] + path;
      } else {
        NamesAroundSlash(cwd, path, []);
      }
    }
  }

  // __darwintrace_is_in_sandbox: without a table everything is allowed; otherwise the path is completed and cleaned,
  // and the first matching rule decides.
  method IsInSandbox(table: Option<seq<CharCode>>, ghost rules: seq<Rule>, path: seq<CharCode>, cwd: seq<CharCode>,
                     takesNew: bool, apple: bool)
    returns (o: Outcome)
    requires table.Some? ==> table.value == Received(rules) && AllProper(rules)
    requires IsString(path) && IsString(cwd) && cwd != []
    ensures o == if table.Some? then Decide(rules, Cleaned(Absolute(path, cwd), apple), takesNew) else Allowed
  {
    hide Cleaned, Decide, Received, AllProper;
    if table.None? {
      return Allowed;
    }
    var p: seq<CharCode>;
    if path != [] && path[0] == SLASH {
      p := path;
    } else {
      p := cwd;
      if p[|p| - 1] != SLASH {
        p := p + [SLASH];
      }
      p := p + path;
    }
    assert p == Absolute(path, cwd);
    var buffer := new CharCode[|p| + 1](i => if 0 <= i < |p| then p[i] else 0);
    assert buffer[..|p|] == p;
    CleanupPath(buffer, |p|, apple);
    ghost var c := Cleaned(p, apple);
    var cleaned := CString(buffer, c);
    o := FirstRule(table.value, rules, cleaned, takesNew);
  }

  method CString(buffer: array<CharCode>, ghost s: seq<CharCode>) returns (r: seq<CharCode>)
    requires |s| < buffer.Length && buffer[..|s|] == s && buffer[|s|] == 0 && IsString(s)
    ensures r == s
  {
    var n := StrLen(buffer[..], 0, s);
    r := buffer[..n];
  }
}
