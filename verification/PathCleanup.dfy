// darwintrace's path cleanup: slash runs are collapsed in place, and on Apple systems a resource fork is stripped.
module PathCleanup {
  import opened CTypes

  const SLASH: CharCode := 47
  // "/..namedfork/rsrc"
  const FORK: seq<CharCode> := [47, 46, 46, 110, 97, 109, 101, 100, 102, 111, 114, 107, 47, 114, 115, 114, 99]

  predicate IsString(s: seq<CharCode>) {
    0 !in s
  }

  // Every run of slashes becomes one slash; saw tells that the character before was one.
  function Collapse(s: seq<CharCode>, saw: bool): (r: seq<CharCode>)
    ensures |r| <= |s|
  {
    if s == [] then []
    else if s[0] == SLASH && saw then Collapse(s[1..], true)
    else [s[0]] + Collapse(s[1..], s[0] == SLASH)
  }

  predicate EndsInFork(s: seq<CharCode>) {
    |s| > |FORK| && s[|s| - |FORK|..] == FORK
  }

  function Stripped(s: seq<CharCode>, apple: bool): seq<CharCode> {
    if apple && EndsInFork(s) then s[..|s| - |FORK|] else s
  }

  function Cleaned(s: seq<CharCode>, apple: bool): seq<CharCode> {
    Collapse(Stripped(s, apple), false)
  }

  predicate NoDoubleSlash(s: seq<CharCode>) {
    forall i :: 0 <= i < |s| - 1 ==> !(s[i] == SLASH && s[i + 1] == SLASH)
  }

  function WithoutSlashes(s: seq<CharCode>): seq<CharCode> {
    if s == [] then [] else (if s[0] == SLASH then [] else [s[0]]) + WithoutSlashes(s[1..])
  }

  // The names between the slashes; name is the part of the current one before s.
  function Names(s: seq<CharCode>, name: seq<CharCode>): seq<seq<CharCode>> {
    if s == [] then (if name == [] then [] else [name])
    else if s[0] == SLASH then (if name == [] then [] else [name]) + Names(s[1..], [])
    else Names(s[1..], name + [s[0]])
  }

  // The result has no slash run, and no slash at all where the caller already saw one.
  lemma {:induction false} CollapseLeavesNoRuns(s: seq<CharCode>, saw: bool)
    ensures NoDoubleSlash(Collapse(s, saw))
    ensures saw && Collapse(s, saw) != [] ==> Collapse(s, saw)[0] != SLASH
  {
    if s != [] {
      CollapseLeavesNoRuns(s[1..], s[0] == SLASH);
    }
  }

  // Only slashes disappear, and the names and the kind of path stay the same.
  lemma {:induction false} CollapseKeepsNames(s: seq<CharCode>, saw: bool, name: seq<CharCode>)
    requires saw ==> name == []
    ensures Names(Collapse(s, saw), name) == Names(s, name)
  {
    if s != [] {
      if s[0] == SLASH {
        CollapseKeepsNames(s[1..], true, []);
        if !saw {
          assert Collapse(s, saw)[1..] == Collapse(s[1..], true);
        }
      } else {
        CollapseKeepsNames(s[1..], false, name + [s[0]]);
        assert Collapse(s, saw)[1..] == Collapse(s[1..], false);
      }
    }
  }

  lemma {:induction false} CollapseKeepsCharacters(s: seq<CharCode>, saw: bool)
    ensures WithoutSlashes(Collapse(s, saw)) == WithoutSlashes(s)
  {
    if s != [] {
      CollapseKeepsCharacters(s[1..], s[0] == SLASH);
      if s[0] != SLASH || !saw {
        assert Collapse(s, saw)[1..] == Collapse(s[1..], s[0] == SLASH);
      }
    }
  }

  lemma {:induction false} CollapseKeepsEnds(s: seq<CharCode>)
    requires s != []
    ensures Collapse(s, false) != [] && Collapse(s, false)[0] == s[0]
    ensures Collapse(s, false)[|Collapse(s, false)| - 1] == s[|s| - 1]
  {
    CollapseKeepsLast(s, false);
  }

  lemma {:induction false} CollapseKeepsLast(s: seq<CharCode>, saw: bool)
    requires s != []
    ensures Collapse(s, saw) != [] ==> Collapse(s, saw)[|Collapse(s, saw)| - 1] == s[|s| - 1]
    ensures Collapse(s, saw) == [] ==> saw && s[|s| - 1] == SLASH
  {
    if |s| > 1 {
      CollapseKeepsLast(s[1..], s[0] == SLASH);
    }
  }

  // A path without slash runs is left alone, and no other path is.
  lemma {:induction false} CollapseFixesExactly(s: seq<CharCode>, saw: bool)
    ensures Collapse(s, saw) == s <==> NoDoubleSlash(s) && !(saw && s != [] && s[0] == SLASH)
  {
    if s != [] {
      CollapseFixesExactly(s[1..], s[0] == SLASH);
      NoDoubleSlashInTail(s);
      if Collapse(s, saw) == s {
        CollapseLeavesNoRuns(s, saw);
      }
    }
  }

  lemma NoDoubleSlashInTail(s: seq<CharCode>)
    requires s != []
    ensures NoDoubleSlash(s) <==>
      NoDoubleSlash(s[1..]) && !(|s| > 1 && s[0] == SLASH && s[1] == SLASH)
  {
    if NoDoubleSlash(s[1..]) && !(|s| > 1 && s[0] == SLASH && s[1] == SLASH) {
      forall i | 0 <= i < |s| - 1
        ensures !(s[i] == SLASH && s[i + 1] == SLASH)
      {
        if i > 0 {
          assert s[i] == s[1..][i - 1] && s[i + 1] == s[1..][i - 1 + 1];
        }
      }
    }
  }

  lemma CollapseIsIdempotent(s: seq<CharCode>)
    ensures Collapse(Collapse(s, false), false) == Collapse(s, false)
  {
    CollapseLeavesNoRuns(s, false);
    CollapseFixesExactly(Collapse(s, false), false);
  }

  const NAMED_FORK: seq<CharCode> := [46, 46, 110, 97, 109, 101, 100, 102, 111, 114, 107]
  const RSRC: seq<CharCode> := [114, 115, 114, 99]

  // The path names a resource fork, however many slashes separate its names.
  predicate NamesFork(s: seq<CharCode>) {
    && s != [] && s[|s| - 1] != SLASH
    && |Names(s, [])| >= 3
    && Names(s, [])[|Names(s, [])| - 2..] == [NAMED_FORK, RSRC]
  }

  lemma {:induction false} NamesAroundSlash(x: seq<CharCode>, y: seq<CharCode>, name: seq<CharCode>)
    ensures Names(x + [SLASH] + y, name) == Names(x, name) + Names(y, [])
  {
    if x == [] {
      assert x + [SLASH] + y == [SLASH] + y;
    } else {
      var rest := if x[0] == SLASH then [] else name + [x[0]];
      NamesAroundSlash(x[1..], y, rest);
      assert (x + [SLASH] + y)[1..] == x[1..] + [SLASH] + y;
    }
  }

  lemma {:induction false} OneName(x: seq<CharCode>, name: seq<CharCode>)
    requires SLASH !in x
    ensures Names(x, name) == if name + x == [] then [] else [name + x]
  {
    if x == [] {
      assert name + x == name;
    } else {
      OneName(x[1..], name + [x[0]]);
      assert name + [x[0]] + x[1..] == name + x;
    }
  }

  // A path with a slash is split at its last one.
  lemma {:induction false} SplitAtLastSlash(v: seq<CharCode>) returns (x: seq<CharCode>, y: seq<CharCode>)
    requires SLASH in v
    ensures v == x + [SLASH] + y && SLASH !in y && (y == [] <==> v[|v| - 1] == SLASH)
    ensures Names(v, []) == Names(x, []) + (if y == [] then [] else [y])
  {
    var n := |v| - 1;
    if v[n] == SLASH {
      x, y := v[..n], [];
    } else {
      x, y := SplitAtLastSlash(v[..n]);
      y := y + [v[n]];
      assert v == v[..n] + [v[n]];
    }
    NamesAroundSlash(x, y, []);
    OneName(y, []);
    assert [] + y == y;
  }

  // A path without slash runs that names a fork ends in the suffix, behind something.
  lemma ForkNameIsSuffix(v: seq<CharCode>)
    requires NoDoubleSlash(v) && NamesFork(v)
    ensures EndsInFork(v)
  {
    hide Names;
    NoNames();
    var ns := Names(v, []);
    assert SLASH in v by { if SLASH !in v { OneName(v, []); } }
    var x, y := SplitAtLastSlash(v);
    assert ns[|ns| - 2..][0] == ns[|ns| - 2] && ns[|ns| - 2..][1] == ns[|ns| - 1];
    assert Names(x, []) == ns[..|ns| - 1] && y == RSRC;
    assert SLASH in x by { if SLASH !in x { OneName(x, []); } }
    var w, z := SplitAtLastSlash(x);
    var last := |x| - 1;
    assert v[last] == x[last] && v[last + 1] == SLASH;
    hide NoDoubleSlash, EndsInFork;
    assert z == ns[|ns| - 2] && Names(w, []) == ns[..|ns| - 2];
    assert v == (w + [SLASH] + NAMED_FORK) + [SLASH] + RSRC;
    ForkBehind(w, v);
  }

  lemma NoNames()
    ensures Names([], []) == []
  {
  }

  lemma ForkBehind(w: seq<CharCode>, v: seq<CharCode>)
    requires w != [] && v == (w + [SLASH] + NAMED_FORK) + [SLASH] + RSRC
    ensures EndsInFork(v)
  {
    assert v == w + FORK;
    assert v[|w|..] == FORK;
  }

  lemma SuffixNamesFork(v: seq<CharCode>)
    requires NoDoubleSlash(v) && EndsInFork(v)
    ensures NamesFork(v)
  {
    var w := v[..|v| - |FORK|];
    assert v == w + FORK;
    var l := |w| - 1;
    assert v[l + 1] == SLASH && v[l] == w[l] != SLASH;
    assert v == w + [SLASH] + (NAMED_FORK + [SLASH] + RSRC);
    NamesAroundSlash(w, NAMED_FORK + [SLASH] + RSRC, []);
    NamesAroundSlash(NAMED_FORK, RSRC, []);
    OneName(NAMED_FORK, []);
    OneName(RSRC, []);
    assert [] + NAMED_FORK == NAMED_FORK && [] + RSRC == RSRC;
    LastNameIsThere(w);
  }

  lemma LastNameIsThere(w: seq<CharCode>)
    requires w != [] && w[|w| - 1] != SLASH
    ensures Names(w, []) != []
  {
    if SLASH in w {
      var x, y := SplitAtLastSlash(w);
    } else {
      OneName(w, []);
    }
  }

  // Cleaning again changes nothing, unless an Apple system finds the stripped path to name a fork once more.
  lemma CleaningIsIdempotentExactly(s: seq<CharCode>, apple: bool)
    ensures Cleaned(Cleaned(s, apple), apple) == Cleaned(s, apple) <==> !(apple && NamesFork(Stripped(s, apple)))
  {
    hide Names, NamesFork, Stripped, EndsInFork;
    var u := Stripped(s, apple);
    SameForks(u);
    CollapseIsIdempotent(u);
    CleanedAgain(Collapse(u, false), apple);
  }

  // Collapsing slashes does not change whether a path names a fork, and then shows it as a suffix.
  lemma SameForks(u: seq<CharCode>)
    ensures EndsInFork(Collapse(u, false)) <==> NamesFork(u)
  {
    hide Names, Collapse, NoDoubleSlash;
    var c := Collapse(u, false);
    CollapseKeepsNames(u, false, []);
    CollapseLeavesNoRuns(u, false);
    if u != [] {
      CollapseKeepsEnds(u);
    }
    assert NamesFork(c) <==> NamesFork(u);
    hide NamesFork;
    if NamesFork(c) {
      ForkNameIsSuffix(c);
    } else if EndsInFork(c) {
      SuffixNamesFork(c);
    }
  }

  lemma CleanedAgain(c: seq<CharCode>, apple: bool)
    requires Collapse(c, false) == c
    ensures Cleaned(c, apple) == c <==> !(apple && EndsInFork(c))
  {
    hide Collapse;
  }

  // On Apple systems a doubled suffix is a path whose cleaning is not final.
  lemma DoubledForkIsCleanedTwice()
    ensures var s := [97] + FORK + FORK;
      && Cleaned(s, true) == [97] + FORK
      && Cleaned(Cleaned(s, true), true) == [97]
  {
    var once: seq<CharCode> := [97] + FORK;
    assert NoDoubleSlash(once);
    CollapseFixesExactly(once, false);
    CollapseFixesExactly([97], false);
    assert (once + FORK)[|once|..] == FORK && (once + FORK)[..|once|] == once;
    assert once[1..] == FORK && once[..1] == [97];
  }

  lemma {:induction false} CollapseKeepsStrings(s: seq<CharCode>, saw: bool)
    requires IsString(s)
    ensures IsString(Collapse(s, saw))
  {
    if s != [] {
      CollapseKeepsStrings(s[1..], s[0] == SLASH);
    }
  }

  // The loop over the characters and the terminating NUL, which moves what it keeps to the left.
  method CollapseInPlace(path: array<CharCode>, length: nat)
    requires length < path.Length && path[length] == 0
    modifies path
    ensures var c := Collapse(old(path[..length]), false);
      path[..|c|] == c && path[|c|] == 0
  {
    hide Collapse;
    ghost var s, z := path[..length], path[..length + 1];
    var sawSlash, shift, i := false, 0, 0;
    assert s[0..] == s;
    while i < length
      invariant 0 <= shift <= i <= length
      invariant path[i..length + 1] == z[i..]
      invariant Collapse(s, false) == path[..i - shift] + Collapse(s[i..], sawSlash)
    {
      CollapseStep(s[i..], sawSlash);
      assert s[i..][1..] == s[i + 1..] && path[i] == z[i..][0] == s[i];
      assert path[i + 1..length + 1] == path[i..length + 1][1..] == z[i + 1..];
      sawSlash, shift := KeepOrSkip(path, i, length, sawSlash, shift);
      i := i + 1;
    }
    CollapseStep(s[i..], sawSlash);
    assert path[length] == z[length..][0] == 0;
    sawSlash, shift := KeepOrSkip(path, i, length, sawSlash, shift);
  }

  lemma CollapseStep(s: seq<CharCode>, saw: bool)
    ensures s == [] ==> Collapse(s, saw) == []
    ensures s != [] && s[0] == SLASH && saw ==> Collapse(s, saw) == Collapse(s[1..], true)
    ensures s != [] && !(s[0] == SLASH && saw) ==> Collapse(s, saw) == [s[0]] + Collapse(s[1..], s[0] == SLASH)
  {
  }

  // The loop body.
  method KeepOrSkip(path: array<CharCode>, i: nat, ghost length: nat, saw: bool, shiftBefore: nat)
    returns (sawSlash: bool, shift: nat)
    requires i <= length < path.Length && shiftBefore <= i
    modifies path
    ensures path[i + 1..length + 1] == old(path[i + 1..length + 1])
    ensures sawSlash == (old(path[i]) == SLASH)
    ensures saw && old(path[i]) == SLASH ==> shift == shiftBefore + 1 && path[..] == old(path[..])
    ensures !(saw && old(path[i]) == SLASH) ==>
      shift == shiftBefore && path[..i - shift + 1] == old(path[..i - shiftBefore]) + [old(path[i])]
  {
    sawSlash, shift := saw, shiftBefore;
    if sawSlash {
      if path[i] == SLASH {
        shift := shift + 1;
      } else {
        sawSlash := false;
        path[i - shift] := path[i];
      }
    } else {
      if path[i] == SLASH {
        sawSlash := true;
      }
      path[i - shift] := path[i];
    }
  }

  // The path is a C string in a buffer, before and after.
  method CleanupPath(path: array<CharCode>, pathlen: nat, apple: bool)
    requires pathlen < path.Length && path[pathlen] == 0 && IsString(path[..pathlen])
    modifies path
    ensures var c := Cleaned(old(path[..pathlen]), apple);
      |c| < path.Length && path[..|c|] == c && path[|c|] == 0 && IsString(c)
  {
    hide Collapse;
    var length := pathlen;
    if apple && length > |FORK| && path[length - |FORK|..length] == FORK {
      path[length - |FORK|] := 0;
      length := length - |FORK|;
    }
    assert path[..length] == Stripped(old(path[..pathlen]), apple);
    CollapseKeepsStrings(path[..length], false);
    CollapseInPlace(path, length);
  }
}
