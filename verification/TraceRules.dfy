// The rules that send_file_map appends (src/pextlib1.0/tracelib.c), and what becomes of the last one.
module TraceRules {
  import opened CTypes
  import opened PathCleanup
  import opened TraceTable
  import opened TraceWriter

  // The size of the buffer in which the target is put together.
  const BUF: nat := 260

  // What the Tcl side has set: the fence, the sandbox paths, prefix, developer_dir and the name of an SDK, if any.
  datatype Setup = Setup(fence: bool, sandbox: seq<seq<CharCode>>, prefix: seq<CharCode>, developer: seq<CharCode>,
                         sdk: seq<CharCode>)

  predicate AllPaths(paths: seq<seq<CharCode>>) {
    forall i :: 0 <= i < |paths| ==> paths[i] != [] && IsString(paths[i])
  }

  predicate ProperSetup(s: Setup) {
    s.fence ==>
      && AllPaths(s.sandbox)
      && s.prefix != [] && IsString(s.prefix) && IsString(s.developer) && IsString(s.sdk)
      && (s.sdk == [] ==> s.developer != [])
  }

  predicate Redirects(s: Setup) {
    s.fence && s.sdk != []
  }

  predicate IsAscii(s: string) {
    forall i :: 0 <= i < |s| ==> 0 < s[i] as int < 128
  }

  function Codes(s: string): (r: seq<CharCode>)
    requires IsAscii(s)
    ensures |r| == |s| && IsString(r) && forall i :: 0 <= i < |r| ==> r[i] == s[i] as int
  {
    seq(|s|, i requires 0 <= i < |s| => s[i] as int)
  }

  function Allows(paths: seq<seq<CharCode>>): (rules: seq<Rule>)
    ensures |rules| == |paths| && forall i :: 0 <= i < |rules| ==> rules[i] == Allow(paths[i])
  {
    seq(|paths|, i requires 0 <= i < |paths| => Allow(paths[i]))
  }

  function DevicePaths(): (paths: seq<seq<CharCode>>)
    ensures AllPaths(paths)
  {
    [Codes("/bin"), Codes("/sbin"), Codes("/dev")]
  }

  function BinaryPaths(): (paths: seq<seq<CharCode>>)
    ensures AllPaths(paths)
  {
    [Codes("/usr/bin"), Codes("/usr/sbin"), Codes("/usr/libexec/gcc"), Codes("/System/Library/Perl")]
  }

  function SystemPaths(): (paths: seq<seq<CharCode>>)
    ensures AllPaths(paths)
  {
    [Codes("/usr"), Codes("/System/Library"), Codes("/Library")]
  }

  function FirstRules(s: Setup): seq<Rule> {
    Allows(s.sandbox) + Allows(DevicePaths()) + [Ask(s.prefix)]
  }

  // What strlcat leaves in the buffer.
  function SdkTarget(s: Setup): (target: seq<CharCode>)
    ensures |target| < BUF
  {
    var whole := s.developer + Codes("/SDKs/") + s.sdk;
    whole[..Min(|whole|, BUF - 1)]
  }

  function RulesOf(s: Setup): (rules: seq<Rule>)
    ensures rules != []
  {
    if !s.fence then [Allow([SLASH])]
    else if s.sdk != [] then FirstRules(s) + Allows(BinaryPaths()) + [Redirect([SLASH], SdkTarget(s))]
    else FirstRules(s) + Allows(SystemPaths() + [s.developer])
  }

  // The rules before the redirection.
  function RulesBefore(s: Setup): seq<Rule> {
    FirstRules(s) + Allows(BinaryPaths())
  }

  lemma TargetIsProper(s: Setup)
    requires ProperSetup(s) && Redirects(s)
    ensures |SdkTarget(s)| > 1 && IsString(SdkTarget(s))
  {
    hide Codes;
    var whole := s.developer + Codes("/SDKs/") + s.sdk;
    assert |whole| > 6 && IsString(whole);
    assert forall c :: c in SdkTarget(s) ==> c in whole;
  }

  lemma AllowsAreProper(paths: seq<seq<CharCode>>)
    requires AllPaths(paths)
    ensures AllProper(Allows(paths))
  {
  }

  lemma RulesAreProper(s: Setup)
    requires ProperSetup(s)
    ensures AllProper(RulesOf(s))
  {
    hide Allows, SdkTarget, DevicePaths, BinaryPaths, SystemPaths;
    if s.fence {
      AllowsAreProper(s.sandbox);
      AllowsAreProper(DevicePaths());
      AllowsAreProper(BinaryPaths());
      AllowsAreProper(SystemPaths() + if s.sdk == [] then [s.developer] else []);
      if s.sdk != [] {
        TargetIsProper(s);
      }
    }
  }

  lemma RedirectionIsLast(s: Setup)
    requires Redirects(s)
    ensures Last(RulesOf(s)) == Redirect([SLASH], SdkTarget(s)) && Front(RulesOf(s)) == RulesBefore(s)
    ensures forall k :: 0 <= k < |RulesOf(s)| - 1 ==> !RulesOf(s)[k].Redirect?
  {
    hide SdkTarget, DevicePaths, BinaryPaths;
    assert forall k :: 0 <= k < |RulesBefore(s)| ==> RulesOf(s)[k] == RulesBefore(s)[k];
  }

  lemma {:induction false} NoRedirections(rules: seq<Rule>)
    requires forall k :: 0 <= k < |rules| ==> !rules[k].Redirect?
    ensures Targets(rules) == 0
  {
    if rules != [] {
      NoRedirections(rules[1..]);
    }
  }

  // The characters that are left for the target.
  function Room(s: Setup): nat {
    SubtractOrZero(CAPACITY, |Table(RulesBefore(s))| + 5)
  }

  lemma HeldTarget(s: Setup)
    requires Redirects(s) && |Table(RulesBefore(s))| + 4 <= CAPACITY
    ensures |Table(Held(RulesOf(s)))| <= CAPACITY
    ensures Held(RulesOf(s)) ==
      RulesBefore(s) + [Redirect([SLASH], SdkTarget(s)[..Min(|SdkTarget(s)|, Room(s))])]
  {
    hide Table, Entry, SdkTarget, RulesBefore, RulesOf;
    RedirectionIsLast(s);
    var rules := RulesOf(s);
    NoRedirections(Front(rules));
    HeldTable(rules);
    RedirectEntry([], HeldLast(rules));
  }

  // The receiver gets the rules as they are exactly if it gets the whole target.
  lemma SentExactly(s: Setup)
    requires ProperSetup(s) && Redirects(s) && |Table(RulesBefore(s))| + 4 <= CAPACITY
    ensures Held(RulesOf(s)) == RulesOf(s) <==> |SdkTarget(s)| <= Room(s)
    ensures Held(RulesOf(s)) == RulesOf(s) <==> |Table(RulesOf(s))| < CAPACITY
  {
    hide Table, Entry, SdkTarget, RulesBefore, RulesOf;
    TargetIsProper(s);
    RedirectionIsLast(s);
    HeldTarget(s);
    HeldTable(RulesOf(s));
    RedirectEntry([], Last(RulesOf(s)));
    var target := SdkTarget(s);
    assert target[..|target|] == target;
    assert RulesOf(s) == RulesBefore(s) + [Redirect([SLASH], target)];
  }

  // There is room for every path, and for some of the target.
  predicate HasRoom(s: Setup) {
    if Redirects(s) then |Table(RulesBefore(s))| + 5 < CAPACITY else |Table(RulesOf(s))| <= CAPACITY
  }

  // What is written for a setup, sent and scanned decides as the rules do, with as much of the target as there is room
  // for.
  method SendThenScan(s: Setup, path: seq<CharCode>, cwd: seq<CharCode>, takesNew: bool, apple: bool)
    returns (o: Outcome)
    requires ProperSetup(s) && HasRoom(s)
    requires IsString(path) && IsString(cwd) && cwd != []
    ensures var sent :=
        if Redirects(s) then RulesBefore(s) + [Redirect([SLASH], SdkTarget(s)[..Min(|SdkTarget(s)|, Room(s))])]
        else RulesOf(s);
      o == Decide(sent, Cleaned(Absolute(path, cwd), apple), takesNew)
  {
    hide Table, Held, RulesOf, RulesBefore, SdkTarget, Cleaned, Decide, ProperSetup;
    RulesAreProper(s);
    if Redirects(s) {
      HeldTarget(s);
      HeldIsProper(s);
    } else {
      NothingIsCut(s);
    }
    o := WriteThenScan(RulesOf(s), path, cwd, takesNew, apple);
  }

  lemma NothingIsCut(s: Setup)
    requires !Redirects(s)
    ensures Held(RulesOf(s)) == RulesOf(s)
  {
    hide DevicePaths, SystemPaths;
  }

  lemma HeldIsProper(s: Setup)
    requires ProperSetup(s) && Redirects(s) && |Table(RulesBefore(s))| + 5 < CAPACITY
    ensures AllProper(Held(RulesOf(s)))
  {
    hide Table, RulesBefore, RulesOf, SdkTarget;
    RulesAreProper(s);
    RedirectionIsLast(s);
    HeldTarget(s);
    TargetIsProper(s);
  }

  // The cut target is seen at the root, unless a sandbox path or the prefix is the root, or it lost just a single
  // closing slash.
  lemma LossShowsAtRootExactly(s: Setup)
    requires ProperSetup(s) && Redirects(s) && |Table(RulesBefore(s))| + 5 < CAPACITY && |SdkTarget(s)| > Room(s)
    ensures Decide(Held(RulesOf(s)), [SLASH], true) != Decide(RulesOf(s), [SLASH], true) <==>
      [SLASH] !in s.sandbox && s.prefix != [SLASH] && !LosesOneSlash(SdkTarget(s), Room(s))
  {
    hide Table, RulesBefore, RulesOf, Held, Decide, SdkTarget, ProperSetup;
    var rules := RulesOf(s);
    RulesAreProper(s);
    HeldIsProper(s);
    HeldTarget(s);
    SentExactly(s);
    HeldExactly(rules);
    RedirectionIsLast(s);
    CutShowsExactly(rules, [SLASH]);
    RootComesLast(s);
    LastHeld(s);
  }

  lemma LastHeld(s: Setup)
    requires ProperSetup(s) && Redirects(s) && |Table(RulesBefore(s))| + 4 <= CAPACITY && |SdkTarget(s)| > Room(s)
    ensures Last(RulesOf(s)).Redirect? && |HeldLast(RulesOf(s)).target| == Room(s)
  {
    hide Table, RulesBefore, RulesOf, SdkTarget;
    RedirectionIsLast(s);
    HeldTarget(s);
    assert Held(RulesOf(s))[|RulesBefore(s)|] == HeldLast(RulesOf(s));
  }

  // No rule but the last decides the root, unless a path is the root itself.
  lemma RootComesLast(s: Setup)
    requires ProperSetup(s) && Redirects(s)
    ensures (forall k :: 0 <= k < |RulesOf(s)| - 1 ==> !(RulesOf(s)[k].path <= [SLASH])) <==>
      [SLASH] !in s.sandbox && s.prefix != [SLASH]
  {
    hide Allows, DevicePaths, BinaryPaths, RulesOf, SparesRoot;
    SparesRootTogether(Allows(s.sandbox) + Allows(DevicePaths()), [Ask(s.prefix)]);
    SparesRootTogether(Allows(s.sandbox), Allows(DevicePaths()));
    SparesRootTogether(FirstRules(s), Allows(BinaryPaths()));
    AllowsSpareRoot(s.sandbox);
    AllowsSpareRoot(DevicePaths());
    AllowsSpareRoot(BinaryPaths());
    AskSparesRoot(s.prefix);
    FixedPathsAreNotRoot();
    RedirectionIsLast(s);
    SparesRootBeforeLast(RulesOf(s));
  }

  predicate SparesRoot(rules: seq<Rule>) {
    forall k :: 0 <= k < |rules| ==> !(rules[k].path <= [SLASH])
  }

  lemma SparesRootBeforeLast(rules: seq<Rule>)
    requires rules != []
    ensures SparesRoot(Front(rules)) <==> forall k :: 0 <= k < |rules| - 1 ==> !(rules[k].path <= [SLASH])
  {
    assert forall k :: 0 <= k < |rules| - 1 ==> Front(rules)[k] == rules[k];
  }

  lemma SparesRootTogether(a: seq<Rule>, b: seq<Rule>)
    ensures SparesRoot(a + b) <==> SparesRoot(a) && SparesRoot(b)
  {
    assert forall k :: 0 <= k < |a| ==> (a + b)[k] == a[k];
    assert forall k :: 0 <= k < |b| ==> (a + b)[|a| + k] == b[k];
  }

  lemma AllowsSpareRoot(paths: seq<seq<CharCode>>)
    requires AllPaths(paths)
    ensures SparesRoot(Allows(paths)) <==> [SLASH] !in paths
  {
    assert forall k :: 0 <= k < |paths| ==> Allows(paths)[k].path == paths[k];
    assert forall k :: 0 <= k < |paths| ==> (paths[k] <= [SLASH] <==> paths[k] == [SLASH]);
  }

  lemma AskSparesRoot(prefix: seq<CharCode>)
    requires prefix != []
    ensures SparesRoot([Ask(prefix)]) <==> prefix != [SLASH]
  {
    assert [Ask(prefix)][0].path == prefix;
    assert prefix <= [SLASH] <==> prefix == [SLASH];
  }

  lemma FixedPathsAreNotRoot()
    ensures [SLASH] !in DevicePaths() && [SLASH] !in BinaryPaths()
  {
    assert forall path :: path in DevicePaths() ==> |path| > 1;
    assert forall path :: path in BinaryPaths() ==> |path| > 1;
  }

  // ----- what the rules decide

  predicate AnyPrefix(paths: seq<seq<CharCode>>, p: seq<CharCode>) {
    exists i :: 0 <= i < |paths| && paths[i] <= p
  }

  lemma {:induction false} DecideAllows(paths: seq<seq<CharCode>>, rest: seq<Rule>, p: seq<CharCode>, takesNew: bool)
    ensures Decide(Allows(paths) + rest, p, takesNew) ==
      if AnyPrefix(paths, p) then Allowed else Decide(rest, p, takesNew)
  {
    if paths == [] {
      assert Allows(paths) + rest == rest;
    } else {
      var rules := Allows(paths) + rest;
      assert rules[0] == Allow(paths[0]) && rules[1..] == Allows(paths[1..]) + rest;
      DecideAllows(paths[1..], rest, p, takesNew);
      if i :| 0 < i < |paths| && paths[i] <= p {
        assert paths[1..][i - 1] <= p;
      }
      if i :| 0 <= i < |paths[1..]| && paths[1..][i] <= p {
        assert paths[i + 1] <= p;
      }
    }
  }

  lemma DecideOne(rule: Rule, rest: seq<Rule>, p: seq<CharCode>, takesNew: bool)
    ensures Decide([rule] + rest, p, takesNew) ==
      if rule.path <= p then Act(rule, p, takesNew) else Decide(rest, p, takesNew)
    ensures Decide([], p, takesNew) == Violation
  {
    assert ([rule] + rest)[1..] == rest;
  }

  lemma DecideFirst(s: Setup, rest: seq<Rule>, p: seq<CharCode>, takesNew: bool)
    ensures Decide(FirstRules(s) + rest, p, takesNew) ==
      if AnyPrefix(s.sandbox, p) || AnyPrefix(DevicePaths(), p) then Allowed
      else if s.prefix <= p then Asked
      else Decide(rest, p, takesNew)
  {
    hide Decide, Allows, DevicePaths, AnyPrefix;
    assert FirstRules(s) + rest == Allows(s.sandbox) + (Allows(DevicePaths()) + ([Ask(s.prefix)] + rest));
    DecideAllows(s.sandbox, Allows(DevicePaths()) + ([Ask(s.prefix)] + rest), p, takesNew);
    DecideAllows(DevicePaths(), [Ask(s.prefix)] + rest, p, takesNew);
    DecideOne(Ask(s.prefix), rest, p, takesNew);
  }

  predicate StartsWith(p: seq<CharCode>, text: string) {
    |text| <= |p| && forall i :: 0 <= i < |text| ==> p[i] == text[i] as int
  }

  lemma CodesStart(text: string, p: seq<CharCode>)
    requires IsAscii(text)
    ensures Codes(text) <= p <==> StartsWith(p, text)
  {
    if StartsWith(p, text) {
      assert p[..|text|] == Codes(text);
    }
  }

  lemma DevicePrefixes(p: seq<CharCode>)
    ensures AnyPrefix(DevicePaths(), p) <==> StartsWith(p, "/bin") || StartsWith(p, "/sbin") || StartsWith(p, "/dev")
  {
    CodesStart("/bin", p);
    CodesStart("/sbin", p);
    CodesStart("/dev", p);
    hide Codes, StartsWith;
    var d := DevicePaths();
    assert d[0] == Codes("/bin") && d[1] == Codes("/sbin") && d[2] == Codes("/dev");
  }

  lemma BinaryPrefixes(p: seq<CharCode>)
    ensures AnyPrefix(BinaryPaths(), p) <==>
      StartsWith(p, "/usr/bin") || StartsWith(p, "/usr/sbin") || StartsWith(p, "/usr/libexec/gcc") ||
      StartsWith(p, "/System/Library/Perl")
  {
    CodesStart("/usr/bin", p);
    CodesStart("/usr/sbin", p);
    CodesStart("/usr/libexec/gcc", p);
    CodesStart("/System/Library/Perl", p);
    BinaryPathsAre();
    hide Codes, StartsWith, BinaryPaths;
  }

  lemma BinaryPathsAre()
    ensures var b := BinaryPaths();
      && |b| == 4 && b[0] == Codes("/usr/bin") && b[1] == Codes("/usr/sbin")
      && b[2] == Codes("/usr/libexec/gcc") && b[3] == Codes("/System/Library/Perl")
  {
    hide Codes;
  }

  lemma SystemPrefixes(developer: seq<CharCode>, p: seq<CharCode>)
    ensures AnyPrefix(SystemPaths() + [developer], p) <==>
      StartsWith(p, "/usr") || StartsWith(p, "/System/Library") || StartsWith(p, "/Library") || developer <= p
  {
    CodesStart("/usr", p);
    CodesStart("/System/Library", p);
    CodesStart("/Library", p);
    hide Codes, StartsWith;
    var d := SystemPaths() + [developer];
    assert d[0] == Codes("/usr") && d[1] == Codes("/System/Library") && d[2] == Codes("/Library") && d[3] == developer;
  }

  // Who is allowed, asked for, redirected or refused: the sandbox and the device paths are open, what lies below the
  // prefix is asked for, and with an SDK everything else but the binaries is looked for below it.
  lemma DecidedAs(s: Setup, p: seq<CharCode>, takesNew: bool)
    ensures Decide(RulesOf(s), p, takesNew) ==
      if !s.fence then (if [SLASH] <= p then Allowed else Violation)
      else if AnyPrefix(s.sandbox, p) || StartsWith(p, "/bin") || StartsWith(p, "/sbin") || StartsWith(p, "/dev")
      then Allowed
      else if s.prefix <= p then Asked
      else if s.sdk != [] then
        if StartsWith(p, "/usr/bin") || StartsWith(p, "/usr/sbin") || StartsWith(p, "/usr/libexec/gcc") ||
           StartsWith(p, "/System/Library/Perl") then Allowed
        else if !([SLASH] <= p) then Violation
        else if takesNew then Redirected(Redirection(SdkTarget(s), p))
        else NoRoom
      else if StartsWith(p, "/usr") || StartsWith(p, "/System/Library") || StartsWith(p, "/Library") || s.developer <= p
      then Allowed
      else Violation
    ensures var whole := s.developer + Codes("/SDKs/") + s.sdk;
      SdkTarget(s) == if |whole| <= 259 then whole else whole[..259]
  {
    hide Decide, Allows, Codes, StartsWith, AnyPrefix, DevicePaths, BinaryPaths, SystemPaths, FirstRules, Redirection;
    DevicePrefixes(p);
    BinaryPrefixes(p);
    if !s.fence {
      assert RulesOf(s) == [Allow([SLASH])] + [];
      DecideOne(Allow([SLASH]), [], p, takesNew);
    } else if s.sdk != [] {
      var last := Redirect([SLASH], SdkTarget(s));
      assert RulesOf(s) == FirstRules(s) + (Allows(BinaryPaths()) + ([last] + []));
      DecideFirst(s, Allows(BinaryPaths()) + ([last] + []), p, takesNew);
      DecideAllows(BinaryPaths(), [last] + [], p, takesNew);
      DecideOne(last, [], p, takesNew);
    } else {
      var paths := SystemPaths() + [s.developer];
      SystemPrefixes(s.developer, p);
      assert RulesOf(s) == FirstRules(s) + (Allows(paths) + []);
      DecideFirst(s, Allows(paths) + [], p, takesNew);
      DecideAllows(paths, [], p, takesNew);
      DecideOne(Allow([SLASH]), [], p, takesNew);
    }
  }

  // ----- an input

  function TotalLength(paths: seq<seq<CharCode>>): nat {
    if paths == [] then 0 else |paths[0]| + TotalLength(paths[1..])
  }

  lemma {:induction false} AllowsLength(paths: seq<seq<CharCode>>)
    ensures |Table(Allows(paths))| == TotalLength(paths) + 3 * |paths|
  {
    if paths != [] {
      AllowsLength(paths[1..]);
      assert Allows(paths)[1..] == Allows(paths[1..]);
    }
  }

  lemma {:induction false} TableTogether(a: seq<Rule>, b: seq<Rule>)
    ensures Table(a + b) == Table(a) + Table(b)
  {
    hide Table, Entry;
    if a == [] {
      assert a + b == b && Table(a) == [] by { EmptyTable(); }
    } else {
      TableTogether(a[1..], b);
      assert (a + b)[1..] == a[1..] + b;
      TableStep(a);
      TableStep(a + b);
    }
  }

  lemma EmptyTable()
    ensures Table([]) == []
  {
  }

  lemma TableStep(rules: seq<Rule>)
    requires rules != []
    ensures Table(rules) == Entry(rules[0]) + Table(rules[1..])
  {
    hide Entry;
  }

  // The entries of the fixed paths and of the prefix take 90 bytes besides the prefix.
  lemma RulesBeforeLength(s: Setup)
    ensures |Table(RulesBefore(s))| == TotalLength(s.sandbox) + 3 * |s.sandbox| + |s.prefix| + 90
  {
    hide Table, Allows, TotalLength, DevicePaths, BinaryPaths;
    TableTogether(Allows(s.sandbox) + Allows(DevicePaths()), [Ask(s.prefix)]);
    TableTogether(Allows(s.sandbox), Allows(DevicePaths()));
    TableTogether(FirstRules(s), Allows(BinaryPaths()));
    AllowsLength(s.sandbox);
    AllowsLength(DevicePaths());
    AllowsLength(BinaryPaths());
    FixedLengths();
    AskLength(s.prefix);
  }

  lemma AskLength(prefix: seq<CharCode>)
    ensures |Table([Ask(prefix)])| == |prefix| + 3
  {
    assert [Ask(prefix)][1..] == [];
  }

  lemma FixedLengths()
    ensures |DevicePaths()| == 3 && TotalLength(DevicePaths()) == 13
    ensures |BinaryPaths()| == 4 && TotalLength(BinaryPaths()) == 53
  {
  }

  lemma {:induction false} EqualLengths(paths: seq<seq<CharCode>>, n: nat)
    requires forall i :: 0 <= i < |paths| ==> |paths[i]| == n
    ensures TotalLength(paths) == |paths| * n
  {
    if paths != [] {
      EqualLengths(paths[1..], n);
    }
  }

  // Ten sandbox paths of 86 characters, the prefix /opt/local and the SDK MacOSX10.6.sdk below /Developer.
  function FullSetup(): (s: Setup)
    ensures ProperSetup(s) && Redirects(s) && |s.sandbox| == 10 && |s.prefix| == 10
    ensures |s.developer| == 10 && |s.sdk| == 14 && s.sdk[13] != SLASH
    ensures forall i :: 0 <= i < 10 ==> |s.sandbox[i]| == 86
  {
    Setup(true, seq(10, _ => [SLASH] + seq(85, _ => 97)), Codes("/opt/local"), Codes("/Developer"),
          Codes("MacOSX10.6.sdk"))
  }

  lemma FullTarget()
    ensures var target := SdkTarget(FullSetup());
      |target| == 30 && target[29] != SLASH
  {
    hide FullSetup;
  }

  lemma FullLength()
    ensures |Table(RulesBefore(FullSetup()))| == 990 && |Table(RulesOf(FullSetup()))| == CAPACITY
  {
    hide Table, Entry, RulesOf, RulesBefore, TotalLength, FullSetup, SdkTarget;
    var s := FullSetup();
    EqualLengths(s.sandbox, 86);
    RulesBeforeLength(s);
    FullTarget();
    RedirectionIsLast(s);
    HeldTable(RulesOf(s));
    RedirectEntry([], Last(RulesOf(s)));
  }

  // The table fills the buffer, the target /Developer/SDKs/MacOSX10.6.sdk arrives without its last character, and the
  // root is redirected to another directory.
  lemma FullTableLosesACharacter()
    ensures var s := FullSetup();
      var rules, target := RulesOf(s), SdkTarget(s);
      && ProperSetup(s) && |Table(rules)| == CAPACITY && |target| == 30
      && Held(rules) == RulesBefore(s) + [Redirect([SLASH], target[..29])]
      && Decide(Held(rules), [SLASH], true) != Decide(rules, [SLASH], true)
  {
    hide Table, Held, RulesOf, RulesBefore, Decide, FullSetup, SdkTarget, ProperSetup;
    var s := FullSetup();
    FullTarget();
    FullLength();
    HeldTarget(s);
    LossShowsAtRootExactly(s);
    assert [SLASH] !in s.sandbox;
  }
}
