// The environment of a workspace: prepending the folders of workspaces to path
// variables, and rolling such a change back.

module PathLists {
  const PATH_SEP := ':'
  const DIR_SEP := '/'

  function Split(s: string): (parts: seq<string>)
    ensures parts != []
  {
    if s == "" then [""]
    else
      var rest := Split(s[1..]);
      if s[0] == PATH_SEP then [""] + rest else [[s[0]] + rest[0]] + rest[1..]
  }

  function NonEmpty(parts: seq<string>): seq<string> {
    if parts == [] then [] else (if parts[0] == "" then [] else [parts[0]]) + NonEmpty(parts[1..])
  }

  /** The entries of a path variable; empty ones do not count. */
  function Paths(value: string): seq<string> { NonEmpty(Split(value)) }

  function Join(parts: seq<string>): string {
    if parts == [] then "" else if |parts| == 1 then parts[0] else parts[0] + ([PATH_SEP] + Join(parts[1..]))
  }

  predicate Entry(p: string) { p != "" && PATH_SEP !in p }

  lemma {:induction false} SplitAtSeparator(a: string, b: string)
    ensures Split(a + ([PATH_SEP] + b)) == Split(a) + Split(b)
    decreases |a|
  {
    var s := a + ([PATH_SEP] + b);
    if a == "" {
      assert s[1..] == b;
    } else {
      assert s[1..] == a[1..] + ([PATH_SEP] + b);
      SplitAtSeparator(a[1..], b);
    }
  }

  lemma {:induction false} NonEmptyAppend(a: seq<string>, b: seq<string>)
    ensures NonEmpty(a + b) == NonEmpty(a) + NonEmpty(b)
    decreases |a|
  {
    if a == [] {
      assert a + b == b;
    } else {
      assert (a + b)[1..] == a[1..] + b;
      NonEmptyAppend(a[1..], b);
    }
  }

  lemma PathsAtSeparator(a: string, b: string)
    ensures Paths(a + ([PATH_SEP] + b)) == Paths(a) + Paths(b)
  {
    SplitAtSeparator(a, b);
    NonEmptyAppend(Split(a), Split(b));
  }

  lemma {:induction false} SplitPlain(s: string)
    requires PATH_SEP !in s
    ensures Split(s) == [s]
    decreases |s|
  {
    if s != "" {
      assert s[0] in s;
      SplitPlain(s[1..]);
      assert [s[0]] + s[1..] == s;
    }
  }

  /** Entries survive being joined and split again. */
  lemma {:induction false} PathsOfJoin(parts: seq<string>)
    requires forall p <- parts :: Entry(p)
    ensures Paths(Join(parts)) == parts
    decreases |parts|
  {
    hide Split;
    if parts == [] {
      SplitPlain("");
      assert NonEmpty([""]) == [] by { assert [""][1..] == []; }
    } else {
      assert parts[0] in parts;
      SplitPlain(parts[0]);
      assert NonEmpty([parts[0]]) == [parts[0]] by { assert [parts[0]][1..] == []; }
      if |parts| > 1 {
        PathsOfJoin(parts[1..]);
        PathsAtSeparator(parts[0], Join(parts[1..]));
      } else {
        assert parts == [parts[0]];
      }
    }
  }

  /** Text without entries adds none. */
  lemma {:induction false} PathsNoMore(a: string, b: string)
    requires Paths(b) == []
    ensures Paths(a + b) == Paths(a)
    decreases |b|
  {
    if b == "" {
      assert a + b == a;
    } else {
      var rest := Split(b[1..]);
      assert b[0] == PATH_SEP;
      assert Split(b)[1..] == rest;
      assert a + b == a + ([PATH_SEP] + b[1..]);
      PathsAtSeparator(a, b[1..]);
    }
  }

  lemma {:induction false} PathsAreEntries(value: string)
    ensures forall p <- Paths(value) :: Entry(p)
  {
    SplitIsPlain(value);
    NonEmptyEntries(Split(value));
  }

  lemma {:induction false} SplitIsPlain(s: string)
    ensures forall p <- Split(s) :: PATH_SEP !in p
    decreases |s|
  {
    if s != "" {
      SplitIsPlain(s[1..]);
    }
  }

  lemma {:induction false} NonEmptyEntries(parts: seq<string>)
    requires forall p <- parts :: PATH_SEP !in p
    ensures forall p <- NonEmpty(parts) :: Entry(p)
    decreases |parts|
  {
    if parts != [] {
      NonEmptyEntries(parts[1..]);
    }
  }

  /** Joining a directory and a name; an absolute name stands alone. */
  function PathJoin(a: string, b: string): string {
    if b != "" && b[0] == DIR_SEP then b
    else if a == "" || a[|a| - 1] == DIR_SEP then a + b
    else a + [DIR_SEP] + b
  }

  /** A path without its trailing separator. */
  function Clean(p: string): string {
    if p != "" && p[|p| - 1] == DIR_SEP then p[..|p| - 1] else p
  }

  /** A subfolder without a leading and a trailing separator. */
  function Trim(sub: string): string {
    Clean(if sub != "" && sub[0] == DIR_SEP then sub[1..] else sub)
  }
}

module EnvironmentSpec {
  import opened PathLists

  const WORKSPACE_VARIABLE := "CMAKE_PREFIX_PATH"
  const FUERTE := "/opt/ros/fuerte"

  type Variables = map<string, string>

  function Value(vars: Variables, name: string): string { if name in vars then vars[name] else "" }

  /** What the file system says: the directories with a marker file, and what exists. */
  datatype Files = Files(marker: string -> bool, present: string -> bool)

  predicate IsWorkspace(p: string, files: Files, includeFuerte: bool, includeMissing: bool) {
    || files.marker(p)
    || (includeFuerte && FUERTE <= p)
    || (includeMissing && !files.present(p))
  }

  function Filter(ps: seq<string>, files: Files, includeFuerte: bool, includeMissing: bool): (r: seq<string>)
    ensures forall p :: p in r <==> p in ps && IsWorkspace(p, files, includeFuerte, includeMissing)
  {
    if ps == [] then []
    else
      (if IsWorkspace(ps[0], files, includeFuerte, includeMissing) then [ps[0]] else [])
      + Filter(ps[1..], files, includeFuerte, includeMissing)
  }

  function Workspaces(vars: Variables, files: Files, includeFuerte: bool, includeMissing: bool): seq<string> {
    Filter(Paths(Value(vars, WORKSPACE_VARIABLE)), files, includeFuerte, includeMissing)
  }

  // ---------- Rolling back ----------

  function Folder(ws: string, sub: string): string { if sub != "" then PathJoin(ws, sub) else ws }

  function FoldersOf(ws: seq<string>, sub: string): (ts: seq<string>)
    ensures |ts| == |ws|
  {
    seq(|ws|, k requires 0 <= k < |ws| => Folder(ws[k], Trim(sub)))
  }

  /** The folders looked for, subfolder by subfolder. */
  function Targets(ws: seq<string>, subs: seq<string>): seq<string> {
    if subs == [] then []
    else Targets(ws, subs[..|subs| - 1]) + FoldersOf(ws, subs[|subs| - 1])
  }

  /** The paths without the first m[c] of those that spell c, for every c. */
  function Keep(paths: seq<string>, m: multiset<string>): (r: seq<string>)
    ensures |r| <= |paths|
  {
    if paths == [] then []
    else
      var c := Clean(paths[0]);
      if m[c] > 0 then Keep(paths[1..], m[c := m[c] - 1]) else [paths[0]] + Keep(paths[1..], m)
  }

  /** The paths without the first one that spells t. */
  function RemoveFirst(paths: seq<string>, t: string): seq<string> {
    if paths == [] then []
    else if Clean(paths[0]) == t then paths[1..]
    else [paths[0]] + RemoveFirst(paths[1..], t)
  }

  /** Removing one more folder is counting it once more: the order of removals is lost. */
  lemma {:induction false} KeepOneLess(paths: seq<string>, m: multiset<string>, t: string)
    ensures Keep(paths, m[t := m[t] + 1]) == RemoveFirst(Keep(paths, m), t)
    decreases |paths|
  {
    if paths != [] {
      var c := Clean(paths[0]);
      var more := m[t := m[t] + 1];
      if m[c] > 0 {
        var less := m[c := m[c] - 1];
        assert more[c := more[c] - 1] == less[t := less[t] + 1];
        KeepOneLess(paths[1..], less, t);
      } else if c == t {
        assert more[c := more[c] - 1] == m;
        assert ([paths[0]] + Keep(paths[1..], m))[1..] == Keep(paths[1..], m);
      } else {
        KeepOneLess(paths[1..], m, t);
        assert ([paths[0]] + Keep(paths[1..], m))[1..] == Keep(paths[1..], m);
      }
    }
  }

  lemma {:induction false} KeepNone(paths: seq<string>)
    ensures Keep(paths, multiset{}) == paths
    decreases |paths|
  {
    if paths != [] {
      KeepNone(paths[1..]);
    }
  }

  /** What is left of a variable when the workspaces in force are rolled back. */
  function RolledBack(vars: Variables, name: string, subs: seq<string>, files: Files): seq<string> {
    Keep(Paths(Value(vars, name)), multiset(Targets(Workspaces(vars, files, true, true), subs)))
  }

  // ---------- Prepending ----------

  function CandidatesOf(path: string, subs: seq<string>): (cs: seq<string>)
    ensures |cs| == |subs|
  {
    seq(|subs|, k requires 0 <= k < |subs| => Folder(path, subs[k]))
  }

  /** The folders that may be added, workspace by workspace. */
  function Candidates(paths: seq<string>, subs: seq<string>): seq<string> {
    if paths == [] then [] else Candidates(paths[..|paths| - 1], subs) + CandidatesOf(paths[|paths| - 1], subs)
  }

  /** The candidates that exist, are not there yet, and are not repeated. */
  function Fresh(cs: seq<string>, there: seq<string>, files: Files): seq<string> {
    if cs == [] then []
    else
      var c, before := cs[|cs| - 1], Fresh(cs[..|cs| - 1], there, files);
      if files.present(c) && c !in there && c !in before then before + [c] else before
  }

  function Added(vars: Variables, name: string, paths: seq<string>, subs: seq<string>, files: Files): seq<string> {
    Fresh(Candidates(paths, subs), Paths(Value(vars, name)), files)
  }

  /** The text put in front of the variable. */
  function Prefix(vars: Variables, name: string, paths: seq<string>, subs: seq<string>, files: Files): string {
    var text := Join(Added(vars, name, paths, subs, files));
    if text != "" && Paths(Value(vars, name)) != [] then text + [PATH_SEP] else text
  }

  predicate NoRepeats(ps: seq<string>) {
    forall j, k :: 0 <= j < k < |ps| ==> ps[j] != ps[k]
  }

  lemma {:induction false} FreshFacts(cs: seq<string>, there: seq<string>, files: Files)
    ensures var f := Fresh(cs, there, files);
      && (forall c :: c in f <==> c in cs && files.present(c) && c !in there)
      && NoRepeats(f)
    decreases |cs|
  {
    if cs != [] {
      var c, init := cs[|cs| - 1], cs[..|cs| - 1];
      assert cs == init + [c];
      FreshFacts(init, there, files);
    }
  }

  lemma {:induction false} InCandidates(paths: seq<string>, subs: seq<string>, c: string)
    returns (p: string, sub: string)
    requires c in Candidates(paths, subs)
    ensures p in paths && sub in subs && c == Folder(p, sub)
    decreases |paths|
  {
    var last, init := paths[|paths| - 1], paths[..|paths| - 1];
    if c in CandidatesOf(last, subs) {
      var k :| 0 <= k < |subs| && CandidatesOf(last, subs)[k] == c;
      p, sub := last, subs[k];
    } else {
      p, sub := InCandidates(init, subs, c);
    }
  }

  lemma {:induction false} CandidateOf(paths: seq<string>, subs: seq<string>, p: string, sub: string)
    requires p in paths && sub in subs
    ensures Folder(p, sub) in Candidates(paths, subs)
    decreases |paths|
  {
    var last, init := paths[|paths| - 1], paths[..|paths| - 1];
    assert paths == init + [last];
    if p == last {
      var k :| 0 <= k < |subs| && subs[k] == sub;
      assert CandidatesOf(last, subs)[k] == Folder(p, sub);
    } else {
      CandidateOf(init, subs, p, sub);
    }
  }

  lemma {:induction false} TargetOf(ws: seq<string>, subs: seq<string>, p: string, sub: string)
    requires p in ws && sub in subs
    ensures Folder(p, Trim(sub)) in Targets(ws, subs)
    decreases |subs|
  {
    var last, init := subs[|subs| - 1], subs[..|subs| - 1];
    assert subs == init + [last];
    if sub == last {
      var k :| 0 <= k < |ws| && ws[k] == p;
      assert FoldersOf(ws, last)[k] == Folder(p, Trim(sub));
    } else {
      TargetOf(ws, init, p, sub);
    }
  }

  lemma {:induction false} InTargets(ws: seq<string>, subs: seq<string>, t: string) returns (p: string, sub: string)
    requires t in Targets(ws, subs)
    ensures p in ws && sub in subs && t == Folder(p, Trim(sub))
    decreases |subs|
  {
    var last, init := subs[|subs| - 1], subs[..|subs| - 1];
    if t in FoldersOf(ws, last) {
      var k :| 0 <= k < |ws| && FoldersOf(ws, last)[k] == t;
      p, sub := ws[k], last;
    } else {
      p, sub := InTargets(ws, init, t);
    }
  }
}

module EnvironmentTheorems {
  import opened PathLists
  import opened EnvironmentSpec

  /** Distinct paths without trailing separators. */
  predicate Distinct(ps: seq<string>) {
    (forall p <- ps :: Clean(p) == p) && NoRepeats(ps)
  }

  lemma DistinctRest(ps: seq<string>)
    requires Distinct(ps) && ps != []
    ensures Distinct(ps[1..]) && Clean(ps[0]) == ps[0]
  {
    hide Clean;
    assert forall p <- ps[1..] :: p in ps;
    assert ps[0] in ps;
  }

  lemma OneLess(m: multiset<string>, p: string, rest: multiset<string>)
    requires multiset{p} + rest <= m
    ensures m[p] > 0
    ensures var less := m[p := m[p] - 1];
      rest <= less && less - rest == m - (multiset{p} + rest)
  {
  }

  /** Rolling back meets the added folders first: each of them uses up one removal. */
  lemma {:induction false} KeepDropsAdded(added: seq<string>, earlier: seq<string>, m: multiset<string>)
    requires Distinct(added) && multiset(added) <= m
    ensures Keep(added + earlier, m) == Keep(earlier, m - multiset(added))
    decreases |added|
  {
    hide Clean;
    if added == [] {
      assert added + earlier == earlier;
      assert m - multiset(added) == m;
    } else {
      var p, rest := added[0], added[1..];
      assert p in added;
      DistinctRest(added);
      assert added == [p] + rest;
      assert multiset(added) == multiset{p} + multiset(rest);
      OneLess(m, p, multiset(rest));
      assert (added + earlier)[1..] == rest + earlier;
      KeepDropsAdded(rest, earlier, m[p := m[p] - 1]);
    }
  }

  /** Keep keeps everything exactly when no removal names an entry. */
  lemma {:induction false} KeepsAll(paths: seq<string>, m: multiset<string>)
    ensures Keep(paths, m) == paths <==> forall p <- paths :: m[Clean(p)] == 0
    decreases |paths|
  {
    if paths != [] {
      var p := paths[0];
      KeepsAll(paths[1..], m);
      if m[Clean(p)] > 0 {
        assert |Keep(paths, m)| < |paths|;
        assert p in paths;
      } else {
        assert ([p] + Keep(paths[1..], m))[1..] == Keep(paths[1..], m);
        assert paths == [p] + paths[1..];
      }
    }
  }

  /** A workspace has the marker file, exists and has no trailing separator. */
  predicate Proper(ws: string, files: Files) {
    Entry(ws) && files.marker(ws) && files.present(ws) && Clean(ws) == ws
  }

  /** A subfolder has no separator at either end, and none of path lists. */
  predicate Tidy(sub: string) {
    PATH_SEP !in sub && Trim(sub) == sub && (sub != "" ==> sub[0] != DIR_SEP)
  }

  lemma FolderIsClean(ws: string, sub: string, files: Files)
    requires Proper(ws, files) && Tidy(sub)
    ensures Entry(Folder(ws, sub)) && Clean(Folder(ws, sub)) == Folder(ws, sub)
    ensures Trim(sub) == sub
  {
  }

  lemma AddedFacts(vars: Variables, name: string, paths: seq<string>, subs: seq<string>, files: Files)
    requires (forall p <- paths :: Proper(p, files)) && (forall sub <- subs :: Tidy(sub))
    ensures var a := Added(vars, name, paths, subs, files);
      Distinct(a) && (forall p <- a :: Entry(p))
  {
    hide Fresh, Candidates, Proper, Tidy, Clean, Folder, Entry, Paths, NoRepeats;
    var there := Paths(Value(vars, name));
    var a := Fresh(Candidates(paths, subs), there, files);
    assert a == Added(vars, name, paths, subs, files);
    FreshFacts(Candidates(paths, subs), there, files);
    forall p | p in a ensures Clean(p) == p && Entry(p) {
      var ws, sub := InCandidates(paths, subs, p);
      FolderIsClean(ws, sub, files);
    }
    assert Distinct(a);
  }

  /** Prepending the prefix text puts the added folders in front of the list. */
  lemma PrefixPrepends(vars: Variables, name: string, paths: seq<string>, subs: seq<string>, files: Files)
    requires (forall p <- paths :: Proper(p, files)) && (forall sub <- subs :: Tidy(sub))
    ensures Paths(Prefix(vars, name, paths, subs, files) + Value(vars, name)) ==
            Added(vars, name, paths, subs, files) + Paths(Value(vars, name))
  {
    hide Split, NonEmpty, Paths, Join, Added, Proper, Tidy, Distinct;
    var a, earlier := Added(vars, name, paths, subs, files), Value(vars, name);
    AddedFacts(vars, name, paths, subs, files);
    PathsOfJoin(a);
    if Join(a) == "" {
      NoPaths();
      assert "" + earlier == earlier;
    } else if Paths(earlier) == [] {
      PathsNoMore(Join(a), earlier);
    } else {
      PathsAtSeparator(Join(a), earlier);
      assert Join(a) + [PATH_SEP] + earlier == Join(a) + ([PATH_SEP] + earlier);
    }
  }

  lemma NoPaths()
    ensures Paths("") == []
  {
    assert [""][1..] == [];
  }

  /** The variables after the prefixes have been written in front of two of them. */
  function Prepended(vars: Variables, name: string, paths: seq<string>, subs: seq<string>, files: Files): Variables {
    var first := vars[WORKSPACE_VARIABLE :=
      Prefix(vars, WORKSPACE_VARIABLE, paths, [""], files) + Value(vars, WORKSPACE_VARIABLE)];
    if name == WORKSPACE_VARIABLE then first
    else first[name := Prefix(vars, name, paths, subs, files) + Value(vars, name)]
  }

  lemma NoSubfolder()
    ensures Tidy("")
  {
  }

  /** At the time of the rollback the path has the marker file, or is gone, or is one of the
      installation that never had markers. */
  predicate StillFound(p: string, later: Files) {
    later.marker(p) || !later.present(p) || "/opt/ros/fuerte" <= p
  }

  /** Every workspace whose folders were added is found again by the rollback, even if it has
      been deleted in the meantime. */
  lemma WorkspaceIsFound(vars: Variables, name: string, paths: seq<string>, subs: seq<string>,
                         files: Files, later: Files, ws: string)
    requires (forall p <- paths :: Proper(p, files) && StillFound(p, later)) && ws in paths
    ensures ws in Workspaces(Prepended(vars, name, paths, subs, files), later, true, true)
  {
    hide Paths, Prefix, Fresh, Candidates, Entry, Clean, Tidy;
    NoSubfolder();
    PrefixPrepends(vars, WORKSPACE_VARIABLE, paths, [""], files);
    FreshFacts(Candidates(paths, [""]), Paths(Value(vars, WORKSPACE_VARIABLE)), files);
    CandidateOf(paths, [""], ws, "");
  }

  /** The removals that the rollback makes after prepending. */
  function Removals(vars: Variables, name: string, paths: seq<string>, subs: seq<string>,
                    files: Files, later: Files)
    : multiset<string>
  {
    multiset(Targets(Workspaces(Prepended(vars, name, paths, subs, files), later, true, true), subs))
  }

  lemma AddedAreRemoved(vars: Variables, name: string, paths: seq<string>, subs: seq<string>,
                        files: Files, later: Files)
    requires (forall p <- paths :: Proper(p, files) && StillFound(p, later)) && (forall sub <- subs :: Tidy(sub))
    ensures multiset(Added(vars, name, paths, subs, files)) <= Removals(vars, name, paths, subs, files, later)
  {
    hide Prepended, Workspaces, Targets, Candidates, Fresh, Folder, Proper, Tidy, StillFound;
    var a := Added(vars, name, paths, subs, files);
    var targets := Targets(Workspaces(Prepended(vars, name, paths, subs, files), later, true, true), subs);
    AddedFacts(vars, name, paths, subs, files);
    FreshFacts(Candidates(paths, subs), Paths(Value(vars, name)), files);
    forall p | p in a ensures multiset(a)[p] <= multiset(targets)[p] {
      var ws, sub := InCandidates(paths, subs, p);
      WorkspaceIsFound(vars, name, paths, subs, files, later, ws);
      FolderIsClean(ws, sub, files);
      TargetOf(Workspaces(Prepended(vars, name, paths, subs, files), later, true, true), subs, ws, sub);
      assert p in targets;
      OnlyOnce(a, p);
    }
  }

  lemma {:induction false} OnlyOnce(ps: seq<string>, p: string)
    requires NoRepeats(ps)
    ensures multiset(ps)[p] <= 1
    decreases |ps|
  {
    if ps != [] {
      assert ps == [ps[0]] + ps[1..];
      OnlyOnce(ps[1..], p);
      if p == ps[0] && p in ps[1..] {
        assert false;
      }
    }
  }

  /** Main theorem: rolling back after prepending, with the file system as it is by then,
      gives the old list exactly when no old entry is named by more removals than there are
      added folders that spell it. */
  lemma RollbackRestores(vars: Variables, name: string, paths: seq<string>, subs: seq<string>,
                         files: Files, later: Files)
    requires (forall p <- paths :: Proper(p, files) && StillFound(p, later)) && (forall sub <- subs :: Tidy(sub))
    requires name == WORKSPACE_VARIABLE ==> subs == [""]
    ensures var earlier := Paths(Value(vars, name));
      var removals := Removals(vars, name, paths, subs, files, later);
      var added := multiset(Added(vars, name, paths, subs, files));
      RolledBack(Prepended(vars, name, paths, subs, files), name, subs, later) == earlier <==>
      forall p <- earlier :: removals[Clean(p)] <= added[Clean(p)]
  {
    hide Targets, Workspaces, Prefix, Added, Proper, Tidy, Keep, Paths, StillFound;
    var earlier, a := Paths(Value(vars, name)), Added(vars, name, paths, subs, files);
    PrefixPrepends(vars, name, paths, subs, files);
    AddedFacts(vars, name, paths, subs, files);
    AddedAreRemoved(vars, name, paths, subs, files, later);
    var m := Removals(vars, name, paths, subs, files, later);
    KeepDropsAdded(a, earlier, m);
    KeepsAll(earlier, m - multiset(a));
  }

  /** An old entry that is a folder of the workspaces themselves is lost: it is not added
      again, but it is removed. */
  lemma OldFolderIsLost(vars: Variables, name: string, paths: seq<string>, subs: seq<string>,
                        files: Files, later: Files, ws: string, sub: string)
    requires (forall p <- paths :: Proper(p, files) && StillFound(p, later)) && (forall sub <- subs :: Tidy(sub))
    requires name == WORKSPACE_VARIABLE ==> subs == [""]
    requires ws in paths && sub in subs && Folder(ws, sub) in Paths(Value(vars, name))
    ensures RolledBack(Prepended(vars, name, paths, subs, files), name, subs, later) != Paths(Value(vars, name))
  {
    hide Prepended, Workspaces, Targets, Candidates, Fresh, Folder, Proper, Tidy, Paths, Clean, RolledBack;
    var p, there := Folder(ws, sub), Paths(Value(vars, name));
    FolderIsClean(ws, sub, files);
    WorkspaceIsFound(vars, name, paths, subs, files, later, ws);
    TargetOf(Workspaces(Prepended(vars, name, paths, subs, files), later, true, true), subs, ws, sub);
    FreshFacts(Candidates(paths, subs), there, files);
    assert p !in Added(vars, name, paths, subs, files);
    RollbackRestores(vars, name, paths, subs, files, later);
  }

  /** For instance a search path that already holds the folder of the only workspace. */
  lemma LostEntry()
    ensures var vars: Variables := map["PATH" := "/ws/bin"];
      var files := Files(_ => true, _ => true);
      && Paths(Value(vars, "PATH")) == ["/ws/bin"]
      && RolledBack(Prepended(vars, "PATH", ["/ws"], ["bin"], files), "PATH", ["bin"], files) != ["/ws/bin"]
  {
    hide Split, RolledBack, Prepended;
    var vars: Variables := map["PATH" := "/ws/bin"];
    var files := Files(_ => true, _ => true);
    SplitPlain("/ws/bin");
    assert NonEmpty(["/ws/bin"]) == ["/ws/bin"] by { assert ["/ws/bin"][1..] == []; }
    assert Folder("/ws", "bin") == "/ws/bin";
    assert Proper("/ws", files) && Tidy("bin");
    OldFolderIsLost(vars, "PATH", ["/ws"], ["bin"], files, files, "/ws", "bin");
  }

  /** In particular when the old value names no folder of a workspace in force, with or
      without a trailing separator. */
  lemma RollbackRestoresClean(vars: Variables, name: string, paths: seq<string>, subs: seq<string>,
                              files: Files, later: Files)
    requires (forall p <- paths :: Proper(p, files) && StillFound(p, later)) && (forall sub <- subs :: Tidy(sub))
    requires name == WORKSPACE_VARIABLE ==> subs == [""]
    requires forall ws <- Workspaces(Prepended(vars, name, paths, subs, files), later, true, true), sub <- subs,
               p <- Paths(Value(vars, name)) :: Clean(p) != Folder(ws, sub)
    ensures RolledBack(Prepended(vars, name, paths, subs, files), name, subs, later) == Paths(Value(vars, name))
  {
    hide Prepended, Workspaces, Targets, Proper, Paths, Clean, Folder, RolledBack, Added;
    var ws := Workspaces(Prepended(vars, name, paths, subs, files), later, true, true);
    forall p | p in Paths(Value(vars, name)) ensures Clean(p) !in Targets(ws, subs) {
      if Clean(p) in Targets(ws, subs) {
        var w, sub := InTargets(ws, subs, Clean(p));
        assert false;
      }
    }
    RollbackRestores(vars, name, paths, subs, files, later);
  }

  lemma {:induction false} KeepsUncounted(paths: seq<string>, m: multiset<string>, p: string)
    requires p in paths && m[Clean(p)] == 0
    ensures p in Keep(paths, m)
    decreases |paths|
  {
    hide Clean;
    var q := paths[0];
    if p != q || p in paths[1..] {
      assert paths == [q] + paths[1..];
      if m[Clean(q)] > 0 {
        KeepsUncounted(paths[1..], m[Clean(q) := m[Clean(q)] - 1], p);
      } else {
        KeepsUncounted(paths[1..], m, p);
      }
    }
  }

  /** What the rollback leaves alone: every entry that is no folder of a path that counts as
      a workspace then. A path that exists without the marker file does not. */
  lemma OthersStay(vars: Variables, name: string, subs: seq<string>, files: Files, p: string)
    requires p in Paths(Value(vars, name))
    requires forall ws <- Paths(Value(vars, WORKSPACE_VARIABLE)), sub <- subs :: Clean(p) == Folder(ws, Trim(sub)) ==>
               files.present(ws) && !files.marker(ws) && !("/opt/ros/fuerte" <= ws)
    ensures p in RolledBack(vars, name, subs, files)
  {
    hide Paths, Targets, Keep, Clean, Trim, Folder;
    var ts := Targets(Workspaces(vars, files, true, true), subs);
    if Clean(p) in ts {
      var ws, sub := InTargets(Workspaces(vars, files, true, true), subs, Clean(p));
      assert false;
    }
    KeepsUncounted(Paths(Value(vars, name)), multiset(ts), p);
  }

  /** A separator around a subfolder makes no difference to the rollback. */
  lemma SlashesAreIgnored(sub: string)
    requires Tidy(sub) && sub != ""
    ensures Trim([DIR_SEP] + sub) == sub && Trim(sub + [DIR_SEP]) == sub && Trim([DIR_SEP] + sub + [DIR_SEP]) == sub
  {
    assert ([DIR_SEP] + sub)[1..] == sub && (sub + [DIR_SEP])[..|sub|] == sub;
    assert ([DIR_SEP] + sub + [DIR_SEP])[1..] == sub + [DIR_SEP];
  }

  /** The order of what is added: workspace by workspace in the order given, and in each of
      them subfolder by subfolder. */
  lemma {:induction false} CandidateAtPlace(paths: seq<string>, subs: seq<string>, i: nat, j: nat)
    requires i < |paths| && j < |subs|
    ensures |Candidates(paths, subs)| == |paths| * |subs|
    ensures i * |subs| + j < |paths| * |subs|
    ensures Candidates(paths, subs)[i * |subs| + j] == Folder(paths[i], subs[j])
    decreases |paths|
  {
    hide Folder;
    var n := |paths| - 1;
    CandidatesLength(paths[..n], subs);
    assert |paths| * |subs| == n * |subs| + |subs|;
    if i < n {
      CandidateAtPlace(paths[..n], subs, i, j);
    }
  }

  lemma {:induction false} CandidatesLength(paths: seq<string>, subs: seq<string>)
    ensures |Candidates(paths, subs)| == |paths| * |subs|
    decreases |paths|
  {
    if paths != [] {
      CandidatesLength(paths[..|paths| - 1], subs);
      assert |paths| * |subs| == (|paths| - 1) * |subs| + |subs|;
    }
  }

  /** What is added keeps the order in which the candidates first come up. */
  lemma {:induction false} FreshInOrder(cs: seq<string>, there: seq<string>, files: Files, a: nat, b: nat)
    requires a < b < |Fresh(cs, there, files)|
    ensures var f := Fresh(cs, there, files);
      exists i, j :: 0 <= i < j < |cs| && cs[i] == f[a] && cs[j] == f[b] && cs[j] !in cs[..j]
    decreases |cs|
  {
    var n := |cs| - 1;
    var c, before := cs[n], Fresh(cs[..n], there, files);
    FreshFacts(cs[..n], there, files);
    if b < |before| {
      FreshInOrder(cs[..n], there, files, a, b);
      var i, j :| 0 <= i < j < n && cs[..n][i] == before[a] && cs[..n][j] == before[b] && cs[..n][j] !in cs[..n][..j];
      assert cs[..n][..j] == cs[..j];
      assert cs[i] == before[a] && cs[j] == before[b];
    } else {
      assert before[a] in before && before[a] in cs[..n];
      var i :| 0 <= i < n && cs[..n][i] == before[a];
      assert cs[i] == before[a] && cs[n] == Fresh(cs, there, files)[b];
    }
  }
}

module EnvironmentObject {
  import opened Options
  import opened PathLists
  import opened EnvironmentSpec

  /** The list without the first element equal to x. */
  function Without(ps: seq<string>, x: string): (r: seq<string>) {
    if ps == [] then [] else if ps[0] == x then ps[1..] else [ps[0]] + Without(ps[1..], x)
  }

  /** Removing the first path that spells t by its value removes that very path. */
  lemma {:induction false} WithoutIsRemoveFirst(ps: seq<string>, t: string, k: nat)
    requires k < |ps| && Clean(ps[k]) == t && forall j :: 0 <= j < k ==> Clean(ps[j]) != t
    ensures Without(ps, ps[k]) == RemoveFirst(ps, t) && |RemoveFirst(ps, t)| < |ps|
    decreases |ps|
  {
    if k > 0 {
      WithoutIsRemoveFirst(ps[1..], t, k - 1);
    }
  }

  lemma {:induction false} NothingToRemove(ps: seq<string>, t: string)
    requires forall j :: 0 <= j < |ps| ==> Clean(ps[j]) != t
    ensures RemoveFirst(ps, t) == ps
    decreases |ps|
  {
    if ps != [] {
      NothingToRemove(ps[1..], t);
    }
  }

  lemma {:induction false} KeepIsFromThere(paths: seq<string>, m: multiset<string>)
    ensures forall p <- Keep(paths, m) :: p in paths
    decreases |paths|
  {
    if paths != [] {
      var c := Clean(paths[0]);
      if m[c] > 0 {
        KeepIsFromThere(paths[1..], m[c := m[c] - 1]);
      } else {
        KeepIsFromThere(paths[1..], m);
      }
    }
  }

  lemma CountOneMore(done: seq<string>, t: string)
    ensures multiset(done + [t]) == multiset(done)[t := multiset(done)[t] + 1]
  {
  }

  /** Looks for one folder and takes the first path that spells it out of the list. */
  method RemoveOne(paths: seq<string>, target: string, ghost all: seq<string>, ghost done: seq<string>)
    returns (left: seq<string>, removed: bool)
    requires paths == Keep(all, multiset(done)) && forall p <- all :: Entry(p)
    ensures left == Keep(all, multiset(done + [target]))
    ensures removed <==> |left| < |paths|
    ensures !removed ==> left == paths
  {
    hide *;
    CountOneMore(done, target);
    KeepOneLess(all, multiset(done), target);
    KeepIsFromThere(all, multiset(done));
    var k := 0;
    while k < |paths| && Clean(paths[k]) != target
      invariant 0 <= k <= |paths|
      invariant forall j :: 0 <= j < k ==> Clean(paths[j]) != target
    {
      k := k + 1;
    }
    left, removed := paths, false;
    if k < |paths| {
      EntryNotEmpty(all, paths[k]);
      WithoutIsRemoveFirst(paths, target, k);
      if paths[k] != "" {
        left, removed := Without(paths, paths[k]), true;
      }
    } else {
      NothingToRemove(paths, target);
    }
  }

  lemma EntryNotEmpty(all: seq<string>, p: string)
    requires p in all && forall p <- all :: Entry(p)
    ensures p != ""
  {
  }

  lemma TargetsStep(ws: seq<string>, subs: seq<string>, s: nat)
    requires s < |subs|
    ensures Targets(ws, subs[..s + 1]) == Targets(ws, subs[..s]) + FoldersOf(ws, subs[s])
  {
    assert subs[..s + 1][..s] == subs[..s];
  }

  method RollbackEnvVariable(environ: Variables, name: string, subfolders: seq<string>, files: Files)
    returns (value: Option<string>)
    ensures var was, left := Paths(Value(environ, name)), RolledBack(environ, name, subfolders, files);
      value == if |left| < |was| then Some(Join(left)) else None
  {
    hide Paths, Targets, FoldersOf, Keep, Workspaces, Join;
    var envPaths, modified := Paths(Value(environ, name)), false;
    ghost var all := envPaths;
    PathsAreEntries(Value(environ, name));
    KeepNone(all);
    ghost var workspaces := Workspaces(environ, files, true, true);
    assert Targets(workspaces, subfolders[..0]) == [] by { NoTargets(workspaces); }
    for s := 0 to |subfolders|
      invariant envPaths == Keep(all, multiset(Targets(workspaces, subfolders[..s])))
      invariant modified <==> |envPaths| < |all|
      invariant !modified ==> envPaths == all
    {
      var subfolder := Trim(subfolders[s]);
      var ws := Workspaces(environ, files, true, true);
      ghost var before, folders := Targets(workspaces, subfolders[..s]), FoldersOf(ws, subfolders[s]);
      assert before + folders[..0] == before;
      for w := 0 to |ws|
        invariant envPaths == Keep(all, multiset(before + folders[..w]))
        invariant modified <==> |envPaths| < |all|
        invariant !modified ==> envPaths == all
      {
        var pathToFind := Folder(ws[w], subfolder);
        FolderAt(ws, subfolders[s], w);
        assert before + folders[..w] + [pathToFind] == before + folders[..w + 1];
        var left, removed := RemoveOne(envPaths, pathToFind, all, before + folders[..w]);
        envPaths := left;
        modified := modified || removed;
      }
      assert before + folders[..|ws|] == before + folders;
      TargetsStep(ws, subfolders, s);
    }
    assert subfolders[..|subfolders|] == subfolders;
    value := if modified then Some(Join(envPaths)) else None;
  }

  lemma NoTargets(ws: seq<string>)
    ensures Targets(ws, []) == []
  {
  }

  lemma FolderAt(ws: seq<string>, sub: string, w: nat)
    requires w < |ws|
    ensures FoldersOf(ws, sub)[w] == Folder(ws[w], Trim(sub))
  {
  }

  lemma CandidatesStep(paths: seq<string>, subs: seq<string>, k: nat)
    requires k < |paths|
    ensures Candidates(paths[..k + 1], subs) == Candidates(paths[..k], subs) + CandidatesOf(paths[k], subs)
  {
    assert paths[..k + 1][..k] == paths[..k];
  }

  lemma FreshStep(cs: seq<string>, c: string, there: seq<string>, files: Files)
    ensures var before := Fresh(cs, there, files);
      Fresh(cs + [c], there, files) ==
      if files.present(c) && c !in there && c !in before then before + [c] else before
  {
    assert (cs + [c])[..|cs|] == cs;
  }

  lemma NoCandidates(subs: seq<string>, there: seq<string>, files: Files)
    ensures Candidates([], subs) == [] && Fresh([], there, files) == []
  {
  }

  lemma CandidateAt(path: string, subs: seq<string>, k: nat)
    requires k < |subs|
    ensures CandidatesOf(path, subs)[k] == Folder(path, subs[k])
  {
  }

  method PrefixEnvVariable(environ: Variables, name: string, paths: seq<string>, subfolders: seq<string>, files: Files)
    returns (prefix: string)
    ensures prefix == Prefix(environ, name, paths, subfolders, files)
  {
    hide Paths, Candidates, CandidatesOf, Fresh, Join;
    var environPaths, checkedPaths := Paths(Value(environ, name)), [];
    NoCandidates(subfolders, environPaths, files);
    assert paths[..0] == [];
    for p := 0 to |paths|
      invariant checkedPaths == Fresh(Candidates(paths[..p], subfolders), environPaths, files)
    {
      ghost var before, cs := Candidates(paths[..p], subfolders), CandidatesOf(paths[p], subfolders);
      assert before + cs[..0] == before;
      for s := 0 to |subfolders|
        invariant checkedPaths == Fresh(before + cs[..s], environPaths, files)
      {
        var path := Folder(paths[p], subfolders[s]);
        CandidateAt(paths[p], subfolders, s);
        FreshStep(before + cs[..s], path, environPaths, files);
        assert before + cs[..s] + [path] == before + cs[..s + 1];
        if !files.present(path) {
          continue;
        }
        if path !in environPaths && path !in checkedPaths {
          checkedPaths := checkedPaths + [path];
        }
      }
      assert before + cs[..|subfolders|] == before + cs;
      CandidatesStep(paths, subfolders, p);
    }
    assert paths[..|paths|] == paths;
    prefix := Join(checkedPaths);
    if prefix != "" && environPaths != [] {
      prefix := prefix + [PATH_SEP];
    }
  }

  /** A variable and the subfolders of a workspace that are added to it. */
  datatype PathVariable = PathVariable(name: string, subfolders: seq<string>)

  predicate DifferentNames(entries: seq<PathVariable>) {
    forall j, k :: 0 <= j < k < |entries| ==> entries[j].name != entries[k].name
  }

  /** What one variable holds after the rollback: every variable is rolled back from the
      workspaces as they were before any of them was changed. */
  ghost predicate IsRolledBack(before: Variables, after: Variables, entry: PathVariable, files: Files) {
    var was, left := Paths(Value(before, entry.name)), RolledBack(before, entry.name, entry.subfolders, files);
    if |left| < |was| then entry.name in after && after[entry.name] == Join(left)
    else Same(before, after, entry.name)
  }

  predicate Same(before: Variables, after: Variables, name: string) {
    (name in after <==> name in before) && (name in before ==> after[name] == before[name])
  }

  predicate Listed(entries: seq<PathVariable>, name: string) {
    exists k :: 0 <= k < |entries| && entries[k].name == name
  }

  lemma ListedMore(entries: seq<PathVariable>, k: nat, name: string)
    requires k < |entries|
    ensures Listed(entries[..k + 1], name) <==> Listed(entries[..k], name) || entries[k].name == name
  {
    if Listed(entries[..k], name) {
      var j :| 0 <= j < k && entries[..k][j].name == name;
      assert entries[..k + 1][j].name == name;
    }
    assert entries[..k + 1][k] == entries[k];
    if Listed(entries[..k + 1], name) && entries[k].name != name {
      var j :| 0 <= j < k + 1 && entries[..k + 1][j].name == name;
      assert entries[..k][j].name == name;
    }
  }

  class Environment {
    var variables: Variables

    constructor (vars: Variables)
      ensures variables == vars
    {
      variables := vars;
    }

    method RollbackEnvVariables(entries: seq<PathVariable>, files: Files)
      requires DifferentNames(entries)
      modifies this
      ensures forall e <- entries :: IsRolledBack(old(variables), variables, e, files)
      ensures forall name :: !Listed(entries, name) ==> Same(old(variables), variables, name)
    {
      hide Paths, RolledBack, Join, Listed;
      var unmodified := variables;
      for k := 0 to |entries|
        invariant forall j :: 0 <= j < k ==> IsRolledBack(unmodified, variables, entries[j], files)
        invariant forall j :: k <= j < |entries| ==> Same(unmodified, variables, entries[j].name)
        invariant forall name :: !Listed(entries[..k], name) ==> Same(unmodified, variables, name)
      {
        var entry := entries[k];
        ghost var was := variables;
        var value := RollbackEnvVariable(unmodified, entry.name, entry.subfolders, files);
        if value.Some? {
          variables := variables[entry.name := value.value];
        }
        assert forall name :: name != entry.name ==> Same(was, variables, name);
        forall j | 0 <= j < k ensures IsRolledBack(unmodified, variables, entries[j], files) {
          assert entries[j].name != entry.name;
          assert Same(was, variables, entries[j].name);
        }
        forall name | !Listed(entries[..k + 1], name) ensures Same(unmodified, variables, name) {
          ListedMore(entries, k, name);
        }
      }
      assert entries[..|entries|] == entries;
    }
  }
}
