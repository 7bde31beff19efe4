// send_file_map: the rules are appended to one buffer through a moving pointer and a counter of remaining bytes.
module TraceWriter {
  import opened CTypes
  import opened PathCleanup
  import opened TraceTable

  const CAPACITY: nat := 1024
  const ALLOW: CharCode := 0
  const REDIRECT: CharCode := 1
  const ASK: CharCode := 2

  function Min(a: int, b: int): int {
    if a < b then a else b
  }

  function SubtractOrZero(a: nat, b: nat): nat {
    if a < b then 0 else a - b
  }

  class TableWriter {
    const filemap: array<CharCode>
    var t: nat
    var remaining: nat
    ghost var rules: seq<Rule>

    // remaining does not go down by the targets of redirections.
    ghost predicate Valid()
      reads this, filemap
    {
      && t <= filemap.Length
      && filemap[..t] == Table(rules)
      && remaining == filemap.Length - t + Targets(rules)
    }

    constructor ()
      ensures Valid() && fresh(filemap) && filemap.Length == CAPACITY && rules == []
    {
      filemap := new CharCode[CAPACITY];
      t, remaining, rules := 0, CAPACITY, [];
    }

    // Copies at most size - 1 characters and terminates them.
    method Strlcpy(at: nat, src: seq<CharCode>, size: nat)
      requires size > 0 ==> at + Min(|src|, size - 1) < filemap.Length
      modifies filemap
      ensures size > 0 ==>
        var n := Min(|src|, size - 1);
        filemap[..at + n + 1] == old(filemap[..at]) + src[..n] + [0]
      ensures size == 0 ==> filemap[..] == old(filemap[..])
    {
      if size == 0 {
        return;
      }
      var n := 0;
      while n < size - 1 && n < |src|
        invariant 0 <= n <= Min(|src|, size - 1)
        invariant filemap[..at + n] == old(filemap[..at]) + src[..n]
      {
        filemap[at + n] := src[n];
        n := n + 1;
      }
      filemap[at + n] := 0;
    }

    // append_allow for an entry that fits.
    method AppendAllow(path: seq<CharCode>, resolution: CharCode)
      requires Valid() && IsString(path) && resolution in {ALLOW, REDIRECT, ASK}
      requires t + |path| + 3 <= filemap.Length
      modifies `t, `remaining, filemap
      ensures t == old(t) + |path| + 3 && remaining == SubtractOrZero(old(remaining), |path| + 3)
      ensures filemap[..t] == old(filemap[..t]) + path + [0, resolution, 0]
    {
      hide Table;
      ghost var before := filemap[..t];
      Strlcpy(t, path, remaining);
      assert filemap[..t + |path| + 1] == before + path + [0];
      StringBehind(filemap[..], before, path);
      var length := StrLen(filemap[..], t, path);
      remaining := SubtractOrZero(remaining, length + 3);
      t := t + length + 1;
      filemap[t] := resolution;
      t := t + 1;
      filemap[t] := 0;
      t := t + 1;
    }

    method Append(rule: Rule)
      requires Valid() && Proper(rule) && !rule.Redirect?
      requires t + |Entry(rule)| <= filemap.Length
      modifies this, filemap
      ensures Valid() && rules == old(rules) + [rule] && t == old(t) + |Entry(rule)|
    {
      hide Table;
      AppendAllow(rule.path, if rule.Allow? then ALLOW else ASK);
      TableAppend(rules, rule);
      TargetsAppend(rules, rule);
      rules := rules + [rule];
    }

    // The target is copied over the NUL before the pointer, as far as the limit allows, and the pointer moves behind
    // it.
    method PutTarget(target: seq<CharCode>, ghost start: seq<CharCode>, ghost written: seq<CharCode>)
      returns (terminated: bool)
      requires IsString(target) && written == target[..Min(|target|, SubtractOrZero(remaining, 1))]
      requires t == |start| + 1 <= filemap.Length && |start| + |written| < filemap.Length && filemap[..t] == start + [0]
      modifies `t, filemap
      ensures filemap[..|start| + |written| + 1] == start + written + [0]
      ensures written != [] ==> terminated && t == |start| + |written| + 1
    {
      assert filemap[..t - 1] == filemap[..t][..t - 1] == start;
      Strlcpy(t - 1, target, remaining);
      assert filemap[..|start| + |written| + 1] == start + written + [0];
      var length;
      length, terminated := Measure(filemap[..], t);
      if written != [] {
        TargetBehind(filemap[..], start, written);
        MeasureOfString(filemap[..], t, written[1..], length, terminated);
      }
      if terminated {
        t := t + length + 1;
      }
    }

    // A redirection overwrites the last NUL of its entry with as much of the target as the limit of the copy allows.
    // terminated: the string behind the pointer ends within the buffer.
    method AppendRedirect(rule: Rule) returns (terminated: bool)
      requires Valid() && Proper(rule) && rule.Redirect?
      requires t + |Entry(Shorter(rule, Kept(rule, remaining)))| <= filemap.Length
      modifies this, filemap
      ensures var held := Shorter(rule, Kept(rule, old(remaining)));
        && filemap[..old(t) + |Entry(held)|] == Table(old(rules)) + Entry(held)
        && (held.target != [] ==> terminated && t == old(t) + |Entry(held)|)
        && (held == rule ==> Valid() && rules == old(rules) + [rule])
    {
      hide Table, Entry, Targets;
      ghost var held := Shorter(rule, Kept(rule, remaining));
      ghost var before, start := filemap[..t], filemap[..t] + rule.path + [0, 1];
      RedirectEntry(before, held);
      AppendAllow(rule.path, REDIRECT);
      assert filemap[..t] == start + [0] by {
        assert before + rule.path + [0, REDIRECT, 0] == start + [0];
      }
      terminated := PutTarget(rule.target, start, held.target);
      if held == rule {
        TableAppend(rules, rule);
        TargetsAppend(rules, rule);
        rules := rules + [rule];
      }
    }
  }

  // How many characters of a target are copied: the limit does not count the NUL that the target overwrites.
  function Kept(rule: Rule, remaining: nat): (n: nat)
    requires rule.Redirect?
    ensures n <= |rule.target|
  {
    Min(|rule.target|, SubtractOrZero(remaining, |rule.path| + 4))
  }

  function Shorter(rule: Rule, n: nat): Rule
    requires rule.Redirect? && n <= |rule.target|
  {
    rule.(target := rule.target[..n])
  }

  // The targets of the redirections, together.
  function Targets(rules: seq<Rule>): nat {
    if rules == [] then 0
    else (if rules[0].Redirect? then |rules[0].target| else 0) + Targets(rules[1..])
  }

  lemma {:induction false} TargetsAppend(rules: seq<Rule>, rule: Rule)
    ensures Targets(rules + [rule]) == Targets(rules) + if rule.Redirect? then |rule.target| else 0
  {
    if rules == [] {
      assert [rule][1..] == [];
    } else {
      TargetsAppend(rules[1..], rule);
      assert (rules + [rule])[1..] == rules[1..] + [rule];
    }
  }

  lemma {:induction false} NoTargets(rules: seq<Rule>)
    requires AllProper(rules)
    ensures Targets(rules) > 0 <==> exists k :: 0 <= k < |rules| && rules[k].Redirect?
  {
    if rules != [] {
      NoTargets(rules[1..]);
      assert rules[0] in rules;
      if k :| 0 <= k < |rules[1..]| && rules[1..][k].Redirect? {
        assert rules[k + 1].Redirect?;
      }
      if k :| 0 < k < |rules| && rules[k].Redirect? {
        assert rules[1..][k - 1].Redirect?;
      }
    }
  }

  // strlen within the buffer.
  method Measure(b: seq<CharCode>, t: nat) returns (n: nat, terminated: bool)
    requires t <= |b|
    ensures t + n <= |b| && 0 !in b[t..t + n]
    ensures if terminated then t + n < |b| && b[t + n] == 0 else t + n == |b|
  {
    n := 0;
    while t + n < |b| && b[t + n] != 0
      invariant t + n <= |b| && 0 !in b[t..t + n]
    {
      assert b[t..t + n + 1] == b[t..t + n] + [b[t + n]];
      n := n + 1;
    }
    terminated := t + n < |b|;
  }

  lemma MeasureOfString(b: seq<CharCode>, t: nat, s: seq<CharCode>, n: nat, terminated: bool)
    requires StringAt(b, t, s) && t + n <= |b| && 0 !in b[t..t + n]
    requires if terminated then t + n < |b| && b[t + n] == 0 else t + n == |b|
    ensures terminated && n == |s|
  {
    CharactersAt(b, t, s, |s|);
    if n > |s| {
      NoNulBefore(b, t, n, |s|);
    }
    CharactersAt(b, t, s, n);
  }

  lemma NoNulBefore(b: seq<CharCode>, t: nat, n: nat, i: nat)
    requires t + n <= |b| && 0 !in b[t..t + n] && i < n
    ensures b[t + i] != 0
  {
    assert b[t..t + n][i] == b[t + i];
  }

  lemma RedirectEntry(before: seq<CharCode>, rule: Rule)
    requires rule.Redirect?
    ensures before + rule.path + [0, 1] + rule.target + [0] == before + Entry(rule)
    ensures |Entry(rule)| == |rule.path| + |rule.target| + 3
  {
  }

  function Last(rules: seq<Rule>): Rule
    requires rules != []
  {
    rules[|rules| - 1]
  }

  function Front(rules: seq<Rule>): seq<Rule>
    requires rules != []
  {
    rules[..|rules| - 1]
  }

  // The list of rules that the buffer holds: the last target may be cut.
  function Held(rules: seq<Rule>): seq<Rule> {
    if rules == [] || !Last(rules).Redirect? then rules else Front(rules) + [HeldLast(rules)]
  }

  function HeldLast(rules: seq<Rule>): Rule
    requires rules != [] && Last(rules).Redirect?
  {
    var front := Front(rules);
    Shorter(Last(rules), Kept(Last(rules), SubtractOrZero(CAPACITY + Targets(front), |Table(front)|)))
  }

  // A full buffer holds its table unless the table ends in its only redirection.
  predicate HoldsExactly(rules: seq<Rule>) {
    || rules == []
    || !Last(rules).Redirect?
    || |Table(rules)| < CAPACITY
    || (|Table(rules)| == CAPACITY && exists k :: 0 <= k < |rules| - 1 && rules[k].Redirect?)
  }

  // Appends a list of rules for which the buffer is large enough, but for the last target.
  method WriteRules(rules: seq<Rule>) returns (w: TableWriter)
    requires AllProper(rules) && |Table(Held(rules))| <= CAPACITY
    ensures fresh(w) && fresh(w.filemap) && w.filemap.Length == CAPACITY
    ensures w.filemap[..|Table(Held(rules))|] == Table(Held(rules))
    ensures AllProper(Held(rules)) ==> w.t == |Table(Held(rules))|
    ensures |Table(rules)| <= CAPACITY && w.filemap[..|Table(rules)|] == Table(rules) <==> HoldsExactly(rules)
  {
    hide Entry, Table, HoldsExactly, Kept, Proper;
    w := new TableWriter();
    for k := 0 to |rules|
      invariant fresh(w) && fresh(w.filemap) && w.filemap.Length == CAPACITY
      invariant k < |rules| ==> w.Valid() && w.rules == rules[..k]
      invariant k == |rules| ==>
        && w.filemap[..|Table(Held(rules))|] == Table(Held(rules))
        && (AllProper(Held(rules)) ==> w.t == |Table(Held(rules))|)
    {
      var rule := rules[k];
      assert rule in rules && rules[..k + 1] == rules[..k] + [rule];
      RoomAt(rules, k);
      if rule.Redirect? {
        var _ := w.AppendRedirect(rule);
      } else {
        w.Append(rule);
      }
    }
    if rules == [] {
      NothingHeld();
    }
    HoldsTableExactly(w.filemap[..], rules);
  }

  lemma NothingHeld()
    ensures Held([]) == [] && Table([]) == []
  {
  }

  lemma HeldTable(rules: seq<Rule>)
    requires rules != [] && Last(rules).Redirect?
    ensures Table(Held(rules)) == Table(Front(rules)) + Entry(HeldLast(rules))
    ensures Table(rules) == Table(Front(rules)) + Entry(Last(rules))
  {
    hide Table, Entry, HeldLast;
    assert rules == Front(rules) + [Last(rules)];
    TableAppend(Front(rules), Last(rules));
    TableAppend(Front(rules), HeldLast(rules));
  }

  // Where the writer comes to the k-th rule, an earlier one is written in full.
  lemma RoomBefore(rules: seq<Rule>, k: nat)
    requires k + 1 < |rules| && |Table(Held(rules))| <= CAPACITY
    ensures |Table(rules[..k])| + |Entry(rules[k])| < CAPACITY
  {
    hide Entry, Table, Kept;
    var held := Held(rules);
    assert held[..k + 1] == rules[..k + 1] == rules[..k] + [rules[k]];
    TableAppend(rules[..k], rules[k]);
    TablePrefix(held, k + 1);
  }

  lemma KeptInFull(rule: Rule, remaining: nat)
    requires rule.Redirect? && rule.target != []
    ensures Shorter(rule, Kept(rule, remaining)) == rule <==> remaining > |Entry(rule)|
  {
    RedirectEntry([], rule);
    assert rule.target[..|rule.target|] == rule.target;
    assert |Shorter(rule, Kept(rule, remaining)).target| == Kept(rule, remaining);
  }

  lemma RoomAt(rules: seq<Rule>, k: nat)
    requires k < |rules| && AllProper(rules) && |Table(Held(rules))| <= CAPACITY
    ensures var before, rule := rules[..k], rules[k];
      var remaining := CAPACITY - |Table(before)| + Targets(before);
      && remaining >= 0
      && (!rule.Redirect? ==> |Table(before)| + |Entry(rule)| <= CAPACITY)
      && (rule.Redirect? ==> |Table(before)| + |Entry(Shorter(rule, Kept(rule, remaining)))| <= CAPACITY)
      && (k + 1 < |rules| && rule.Redirect? ==> Shorter(rule, Kept(rule, remaining)) == rule)
      && (k + 1 == |rules| && rule.Redirect? ==>
            && Table(Held(rules)) == Table(before) + Entry(Shorter(rule, Kept(rule, remaining)))
            && (AllProper(Held(rules)) ==> Shorter(rule, Kept(rule, remaining)).target != []))
      && (k + 1 == |rules| && !rule.Redirect? ==> Held(rules) == before + [rule])
  {
    hide Entry, Table, Kept, Targets;
    assert rules[k] in rules;
    if k + 1 < |rules| {
      RoomBefore(rules, k);
      if rules[k].Redirect? {
        KeptInFull(rules[k], CAPACITY - |Table(rules[..k])| + Targets(rules[..k]));
      }
    } else {
      assert rules == rules[..k] + [rules[k]] && Front(rules) == rules[..k];
      TableAppend(rules[..k], rules[k]);
      if rules[k].Redirect? {
        HeldTable(rules);
        assert HeldLast(rules) == Held(rules)[k] && HeldLast(rules) in Held(rules);
      }
    }
  }

  // The buffer holds the list as it is exactly under that condition.
  lemma HeldExactly(rules: seq<Rule>)
    requires AllProper(rules) && |Table(Held(rules))| <= CAPACITY
    ensures Held(rules) == rules <==> HoldsExactly(rules)
  {
    hide Entry, Table, Kept;
    if rules != [] && Last(rules).Redirect? {
      var front, rule := Front(rules), Last(rules);
      assert rule in rules && rules == front + [rule];
      HeldTable(rules);
      KeptInFull(rule, CAPACITY + Targets(front) - |Table(front)|);
      NoTargets(front);
      assert (exists k :: 0 <= k < |front| && front[k].Redirect?) <==>
        exists k :: 0 <= k < |rules| - 1 && rules[k].Redirect?;
    }
  }

  lemma CutShows(rules: seq<Rule>)
    requires AllProper(rules) && Held(rules) != rules
    ensures var n := |Table(Held(rules))|;
      0 < n < |Table(rules)| && Table(Held(rules))[n - 1] == 0 != Table(rules)[n - 1]
  {
    hide Table, Kept;
    var rule, held := Last(rules), HeldLast(rules);
    assert rule in rules && rules == Front(rules) + [rule];
    HeldTable(rules);
    var n := |held.target|;
    assert rule.target[..|rule.target|] == rule.target;
    assert Entry(held)[|Entry(held)| - 1] == 0 && Entry(rule)[|Entry(held)| - 1] == rule.target[n];
  }

  lemma HoldsTableExactly(b: seq<CharCode>, rules: seq<Rule>)
    requires AllProper(rules) && |Table(Held(rules))| <= CAPACITY == |b|
    requires b[..|Table(Held(rules))|] == Table(Held(rules))
    ensures |Table(rules)| <= CAPACITY && b[..|Table(rules)|] == Table(rules) <==> HoldsExactly(rules)
  {
    hide Table, Held, HoldsExactly, Proper;
    HeldExactly(rules);
    if Held(rules) != rules {
      CutShows(rules);
      var n := |Table(Held(rules))|;
      assert b[n - 1] == b[..n][n - 1] == 0;
      assert |Table(rules)| <= CAPACITY ==> b[..|Table(rules)|][n - 1] == b[n - 1];
    }
  }

  lemma EntryIsNotEmpty(rule: Rule)
    ensures Entry(rule) != []
  {
  }

  lemma {:induction false} TablePrefix(rules: seq<Rule>, k: nat)
    requires k <= |rules|
    ensures |Table(rules[..k])| <= |Table(rules)|
    ensures k < |rules| ==> |Table(rules[..k])| < |Table(rules)|
  {
    hide Entry;
    if rules != [] {
      EntryIsNotEmpty(rules[0]);
    }
    if k > 0 {
      TablePrefix(rules[1..], k - 1);
      assert rules[..k][1..] == rules[1..][..k - 1];
    }
  }

  // What is written, sent with its length, terminated by the receiver and scanned, decides as the list of rules does,
  // or as the list whose last target is cut.
  method WriteThenScan(rules: seq<Rule>, path: seq<CharCode>, cwd: seq<CharCode>, takesNew: bool, apple: bool)
    returns (o: Outcome)
    requires rules != [] && AllProper(rules) && |Table(Held(rules))| <= CAPACITY && AllProper(Held(rules))
    requires IsString(path) && IsString(cwd) && cwd != []
    ensures o == Decide(Held(rules), Cleaned(Absolute(path, cwd), apple), takesNew)
  {
    var w := WriteRules(rules);
    var received := w.filemap[..w.t] + [0];
    o := IsInSandbox(Some(received), Held(rules), path, cwd, takesNew, apple);
  }

  // The cut shows exactly for the paths that the last rule redirects, unless just a single closing slash is lost.
  lemma CutShowsExactly(rules: seq<Rule>, p: seq<CharCode>)
    requires AllProper(rules) && |Table(Held(rules))| <= CAPACITY && AllProper(Held(rules)) && !HoldsExactly(rules)
    ensures rules != [] && Last(rules).Redirect?
    ensures Decide(Held(rules), p, true) != Decide(rules, p, true) <==>
      && (forall k :: 0 <= k < |rules| - 1 ==> !(rules[k].path <= p))
      && Last(rules).path <= p
      && !LosesOneSlash(Last(rules).target, |HeldLast(rules).target|)
  {
    hide HoldsExactly, Kept, Table;
    HeldExactly(rules);
    var rule, held := Last(rules), HeldLast(rules);
    assert rules == Front(rules) + [rule] && held in Held(rules);
    DecideBehind(Front(rules), rule, p);
    DecideBehind(Front(rules), held, p);
    assert rule.target[..|rule.target|] == rule.target;
    ShorterRedirection(rule.target, |held.target|, p);
    assert Decide([rule], p, true) == if rule.path <= p then Act(rule, p, true) else Violation;
    assert Decide([held], p, true) == if rule.path <= p then Act(held, p, true) else Violation;
  }

  predicate LosesOneSlash(target: seq<CharCode>, n: nat) {
    0 < n && n + 1 == |target| && target[n] == SLASH && target[n - 1] != SLASH
  }

  lemma ShorterRedirection(target: seq<CharCode>, n: nat, p: seq<CharCode>)
    requires 0 < n < |target|
    ensures Redirection(target, p) == Redirection(target[..n], p) <==> LosesOneSlash(target, n)
  {
    if LosesOneSlash(target, n) {
      assert target == target[..n] + [SLASH];
    }
  }

  lemma {:induction false} DecideBehind(front: seq<Rule>, rule: Rule, p: seq<CharCode>)
    ensures Decide(front + [rule], p, true) ==
      if exists k :: 0 <= k < |front| && front[k].path <= p then Decide(front, p, true) else Decide([rule], p, true)
  {
    if front != [] {
      assert (front + [rule])[1..] == front[1..] + [rule];
      DecideBehind(front[1..], rule, p);
      if k :| 0 < k < |front| && front[k].path <= p {
        assert front[1..][k - 1].path <= p;
      }
      if k :| 0 <= k < |front[1..]| && front[1..][k].path <= p {
        assert front[k + 1].path <= p;
      }
    }
  }

  lemma StringBehind(b: seq<CharCode>, before: seq<CharCode>, s: seq<CharCode>)
    requires |before| + |s| < |b| && b[..|before| + |s| + 1] == before + s + [0] && IsString(s)
    ensures StringAt(b, |before|, s)
  {
    var n := |before| + |s| + 1;
    assert b[|before|..|before| + |s|] == b[..n][|before|..|before| + |s|] == s;
    assert b[|before| + |s|] == b[..n][|before| + |s|];
  }

  lemma TargetBehind(b: seq<CharCode>, before: seq<CharCode>, s: seq<CharCode>)
    requires |before| + |s| < |b| && b[..|before| + |s| + 1] == before + s + [0] && IsString(s) && s != []
    ensures StringAt(b, |before| + 1, s[1..])
  {
    assert before + s == before + [s[0]] + s[1..];
    StringBehind(b, before + [s[0]], s[1..]);
  }
}
