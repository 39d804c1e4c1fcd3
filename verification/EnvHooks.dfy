// Finding the environment hooks of all workspaces: of hooks with the same file name only
// the last one scanned is kept.

module HookSpec {
  import opened PathLists

  /** A hook file of a workspace. */
  datatype Hook = Hook(workspace: string, filename: string)

  const EXCLUDED := "ros_package_path.bat"
  const PROFILE := "etc/catkin/profile.d"

  function HookDir(workspace: string): string { PathJoin(workspace, PROFILE) }

  function PathOf(h: Hook): string { PathJoin(HookDir(h.workspace), h.filename) }

  predicate EndsWith(s: string, t: string) { |t| <= |s| && s[|s| - |t|..] == t }

  /** The hooks for every shell. */
  predicate IsGeneric(filename: string, ext: string) {
    EndsWith(filename, "." + ext) && !EndsWith(filename, EXCLUDED)
  }

  /** A file name holds no separator. */
  predicate FileName(f: string) { DIR_SEP !in f }

  /** The hooks without those called filename. */
  function Others(hs: seq<Hook>, filename: string): seq<Hook> {
    if hs == [] then []
    else (if hs[0].filename == filename then [] else [hs[0]]) + Others(hs[1..], filename)
  }

  predicate HasName(hs: seq<Hook>, filename: string) {
    exists k :: 0 <= k < |hs| && hs[k].filename == filename
  }

  /** The scanned hooks without those that a later one of the same name replaces. */
  function LastOnly(hs: seq<Hook>): seq<Hook> {
    if hs == [] then []
    else (if HasName(hs[1..], hs[0].filename) then [] else [hs[0]]) + LastOnly(hs[1..])
  }

  lemma HasNameSnoc(hs: seq<Hook>, h: Hook, f: string)
    ensures HasName(hs + [h], f) <==> HasName(hs, f) || h.filename == f
  {
    if HasName(hs, f) {
      var k :| 0 <= k < |hs| && hs[k].filename == f;
      assert (hs + [h])[k].filename == f;
    }
    assert (hs + [h])[|hs|] == h;
  }

  /** Scanning one more hook drops the one it replaces and goes to the end. */
  lemma {:induction false} LastOnlySnoc(hs: seq<Hook>, h: Hook)
    ensures LastOnly(hs + [h]) == Others(LastOnly(hs), h.filename) + [h]
    decreases |hs|
  {
    hide HasName;
    if hs == [] {
      assert [h][1..] == [];
      NoName(h.filename);
      assert LastOnly([h]) == [h] + LastOnly([]);
      assert [] + [h] == [h];
    } else {
      assert (hs + [h])[1..] == hs[1..] + [h];
      LastOnlySnoc(hs[1..], h);
      HasNameSnoc(hs[1..], h, hs[0].filename);
      OthersCons(if HasName(hs[1..], hs[0].filename) then [] else [hs[0]], LastOnly(hs[1..]), h.filename);
    }
  }

  lemma NoName(f: string)
    ensures !HasName([], f)
  {
  }

  lemma OthersCons(a: seq<Hook>, b: seq<Hook>, f: string)
    requires |a| <= 1
    ensures Others(a + b, f) == (if a != [] && a[0].filename != f then a else []) + Others(b, f)
  {
    if a == [] {
      assert a + b == b;
    } else {
      assert (a + b)[1..] == b && a == [a[0]];
    }
  }

  /** The kept hooks have different names, and every scanned name is among them. */
  lemma {:induction false} LastOnlyNames(hs: seq<Hook>)
    ensures forall j, k :: 0 <= j < k < |LastOnly(hs)| ==> LastOnly(hs)[j].filename != LastOnly(hs)[k].filename
    ensures forall f :: HasName(LastOnly(hs), f) <==> HasName(hs, f)
    decreases |hs|
  {
    hide HasName;
    if hs != [] {
      LastOnlyNames(hs[1..]);
      forall f ensures HasName(LastOnly(hs), f) <==> HasName(hs, f) {
        HasNameCons(hs[0], hs[1..], f);
        HasNameCons(hs[0], LastOnly(hs[1..]), f);
        assert hs == [hs[0]] + hs[1..];
        assert [] + LastOnly(hs[1..]) == LastOnly(hs[1..]);
      }
      if !HasName(hs[1..], hs[0].filename) {
        NotNamed(LastOnly(hs[1..]), hs[0].filename);
      } else {
        assert LastOnly(hs) == LastOnly(hs[1..]);
      }
    }
  }

  lemma HasNameCons(h: Hook, hs: seq<Hook>, f: string)
    ensures HasName([h] + hs, f) <==> h.filename == f || HasName(hs, f)
  {
    var all := [h] + hs;
    assert all[0] == h;
    if HasName(hs, f) {
      var k :| 0 <= k < |hs| && hs[k].filename == f;
      assert all[k + 1].filename == f;
    }
    if HasName(all, f) && h.filename != f {
      var k :| 0 <= k < |all| && all[k].filename == f;
      assert hs[k - 1].filename == f;
    }
  }

  lemma NotNamed(hs: seq<Hook>, f: string)
    requires !HasName(hs, f)
    ensures forall k :: 0 <= k < |hs| ==> hs[k].filename != f
  {
  }

  /** Some scan of h is the last one of its name. */
  ghost predicate LastNamed(hs: seq<Hook>, h: Hook) {
    exists k :: 0 <= k < |hs| && hs[k] == h && !HasName(hs[k + 1..], h.filename)
  }

  /** What is kept is exactly what no later hook replaces. */
  lemma {:induction false} KeptIffLast(hs: seq<Hook>, h: Hook)
    ensures h in LastOnly(hs) <==> LastNamed(hs, h)
    decreases |hs|
  {
    hide HasName;
    if hs != [] {
      KeptIffLast(hs[1..], h);
      assert [] + LastOnly(hs[1..]) == LastOnly(hs[1..]);
      if LastNamed(hs[1..], h) {
        var k :| 0 <= k < |hs| - 1 && hs[1..][k] == h && !HasName(hs[1..][k + 1..], h.filename);
        assert hs[1..][k + 1..] == hs[k + 2..] && hs[k + 1] == h;
      }
      if LastNamed(hs, h) && !(h == hs[0] && !HasName(hs[1..], h.filename)) {
        var k :| 0 <= k < |hs| && hs[k] == h && !HasName(hs[k + 1..], h.filename);
        assert hs[1..][k..] == hs[k + 1..] && hs[1..][k - 1] == h;
      }
    }
  }

  /** The path of a hook tells its name. */
  lemma PathTellsName(g: Hook, h: Hook)
    requires FileName(g.filename) && FileName(h.filename) && PathOf(g) == PathOf(h)
    ensures g.filename == h.filename
  {
    hide HookDir, PathOf, FileName;
    PathEnds(g);
    PathEnds(h);
    NameAfterSlash(HookDir(g.workspace), g.filename, PathOf(g));
    NameAfterSlash(HookDir(h.workspace), h.filename, PathOf(g));
  }

  lemma PathEnds(h: Hook)
    requires FileName(h.filename)
    ensures PathOf(h) == HookDir(h.workspace) + ([DIR_SEP] + h.filename)
  {
    var dir := HookDir(h.workspace);
    assert dir != "" && dir[|dir| - 1] == 'd';
    assert h.filename != "" ==> h.filename[0] in h.filename;
    assert dir + [DIR_SEP] + h.filename == dir + ([DIR_SEP] + h.filename);
  }

  /** The last separator comes right before the name. */
  lemma NameAfterSlash(d: string, f: string, s: string)
    requires FileName(f) && s == d + ([DIR_SEP] + f)
    ensures |d| < |s| && s[|d|] == DIR_SEP && s[|d| + 1..] == f
    ensures forall j :: |d| < j < |s| ==> s[j] != DIR_SEP
  {
    forall j | |d| < j < |s| ensures s[j] != DIR_SEP {
      assert s[j] == f[j - |d| - 1];
    }
  }

  function PathsOf(hs: seq<Hook>): (ps: seq<string>)
    ensures |ps| == |hs|
  {
    seq(|hs|, k requires 0 <= k < |hs| => PathOf(hs[k]))
  }

  function WorkspacesOf(hs: seq<Hook>): (ws: seq<string>)
    ensures |ws| == |hs|
  {
    seq(|hs|, k requires 0 <= k < |hs| => hs[k].workspace)
  }

  /** The hooks of one workspace that satisfy p, in the order of its directory. */
  function HooksIn(workspace: string, names: seq<string>, p: string -> bool): seq<Hook> {
    if names == [] then []
    else
      var f := names[|names| - 1];
      HooksIn(workspace, names[..|names| - 1], p) + (if p(f) then [Hook(workspace, f)] else [])
  }

  /** The hooks that satisfy p, from the last workspace to the first. */
  function Scan(workspaces: seq<string>, profile: string -> seq<string>, p: string -> bool): seq<Hook> {
    if workspaces == [] then []
    else Scan(workspaces[1..], profile, p) + HooksIn(workspaces[0], profile(workspaces[0]), p)
  }

  /** Which files are hooks of which kind: an else-branch, so a file is of one kind only. */
  predicate Generic(ext: string, filename: string) { IsGeneric(filename, ext) }

  predicate Specific(ext: string, shell: string, filename: string) {
    !IsGeneric(filename, ext) && shell != "" && EndsWith(filename, "." + shell)
  }
}

module HookTheorems {
  import opened PathLists
  import opened HookSpec

  lemma {:induction false} InHooksIn(workspace: string, names: seq<string>, p: string -> bool, h: Hook)
    ensures h in HooksIn(workspace, names, p) <==>
      h.workspace == workspace && h.filename in names && p(h.filename)
    decreases |names|
  {
    if names != [] {
      var n := |names| - 1;
      InHooksIn(workspace, names[..n], p, h);
      assert names == names[..n] + [names[n]];
    }
  }

  lemma HasNameIn(hs: seq<Hook>, f: string)
    ensures HasName(hs, f) <==> exists h :: h in hs && h.filename == f
  {
    forall h | h in hs && h.filename == f ensures HasName(hs, f) {
      var k :| 0 <= k < |hs| && hs[k] == h;
    }
    if HasName(hs, f) {
      var k :| 0 <= k < |hs| && hs[k].filename == f;
      assert hs[k] in hs;
    }
  }

  lemma HasNameAppend(a: seq<Hook>, b: seq<Hook>, f: string)
    ensures HasName(a + b, f) <==> HasName(a, f) || HasName(b, f)
  {
    HasNameIn(a, f);
    HasNameIn(b, f);
    HasNameIn(a + b, f);
  }

  /** Of two scans one after the other, the second replaces what it names. */
  lemma {:induction false} LastOnlyAppend(a: seq<Hook>, b: seq<Hook>, h: Hook)
    ensures h in LastOnly(a + b) <==> h in LastOnly(b) || (h in LastOnly(a) && !HasName(b, h.filename))
    decreases |a|
  {
    hide HasName;
    if a == [] {
      assert a + b == b;
    } else {
      assert (a + b)[1..] == a[1..] + b;
      LastOnlyAppend(a[1..], b, h);
      HasNameAppend(a[1..], b, a[0].filename);
    }
  }

  /** In one directory every hook is the last of its name. */
  lemma AllOfOneDirectory(workspace: string, names: seq<string>, p: string -> bool, h: Hook)
    ensures h in LastOnly(HooksIn(workspace, names, p)) <==> h in HooksIn(workspace, names, p)
  {
    hide HasName, LastOnly, HooksIn;
    var hs := HooksIn(workspace, names, p);
    forall g ensures g in LastOnly(hs) ==> g in hs {
      KeptIffLast(hs, g);
    }
    if h in hs {
      LastOnlyNames(hs);
      HasNameIn(hs, h.filename);
      HasNameIn(LastOnly(hs), h.filename);
      var g :| g in LastOnly(hs) && g.filename == h.filename;
      InHooksIn(workspace, names, p, g);
      InHooksIn(workspace, names, p, h);
    }
  }

  /** The first workspace of the list that has a file of this name. */
  ghost predicate FirstWith(workspaces: seq<string>, profile: string -> seq<string>, h: Hook) {
    exists i :: 0 <= i < |workspaces| && workspaces[i] == h.workspace && h.filename in profile(workspaces[i])
      && forall j :: 0 <= j < i ==> h.filename !in profile(workspaces[j])
  }

  lemma FirstWithCons(workspaces: seq<string>, profile: string -> seq<string>, h: Hook)
    requires workspaces != []
    ensures FirstWith(workspaces, profile, h) <==>
      if h.filename in profile(workspaces[0]) then h.workspace == workspaces[0]
      else FirstWith(workspaces[1..], profile, h)
  {
    var rest := workspaces[1..];
    if h.filename !in profile(workspaces[0]) && FirstWith(rest, profile, h) {
      var i :| 0 <= i < |rest| && rest[i] == h.workspace && h.filename in profile(rest[i])
        && forall j :: 0 <= j < i ==> h.filename !in profile(rest[j]);
      assert workspaces[i + 1] == h.workspace;
      assert forall j :: 0 < j < i + 1 ==> workspaces[j] == rest[j - 1];
    }
    if h.filename !in profile(workspaces[0]) && FirstWith(workspaces, profile, h) {
      var i :| 0 <= i < |workspaces| && workspaces[i] == h.workspace && h.filename in profile(workspaces[i])
        && forall j :: 0 <= j < i ==> h.filename !in profile(workspaces[j]);
      assert rest[i - 1] == h.workspace;
      assert forall j :: 0 <= j < i - 1 ==> rest[j] == workspaces[j + 1];
    }
  }

  /** Which hooks are kept: of each name the one of the first workspace that has it. */
  lemma {:induction false} FirstWorkspaceWins(workspaces: seq<string>, profile: string -> seq<string>,
                                              p: string -> bool, h: Hook)
    ensures h in LastOnly(Scan(workspaces, profile, p)) <==> p(h.filename) && FirstWith(workspaces, profile, h)
    decreases |workspaces|
  {
    hide LastOnly, HooksIn, FirstWith, HasName;
    if workspaces == [] {
      NothingKept();
      NoFirst(profile, h);
    } else {
      var ws, names := workspaces[0], profile(workspaces[0]);
      var here, others := HooksIn(ws, names, p), Scan(workspaces[1..], profile, p);
      FirstWorkspaceWins(workspaces[1..], profile, p, h);
      LastOnlyAppend(others, here, h);
      AllOfOneDirectory(ws, names, p, h);
      InHooksIn(ws, names, p, h);
      HasNameIn(here, h.filename);
      InHooksIn(ws, names, p, Hook(ws, h.filename));
      forall g ensures g in here <==> g.workspace == ws && g.filename in names && p(g.filename) {
        InHooksIn(ws, names, p, g);
      }
      FirstWithCons(workspaces, profile, h);
    }
  }

  lemma NothingKept()
    ensures LastOnly([]) == []
  {
  }

  lemma NoFirst(profile: string -> seq<string>, h: Hook)
    ensures !FirstWith([], profile, h)
  {
  }

  /** The name has the given ending. */
  ghost predicate Ends(f: string, ending: string) { exists b: string :: f == b + ending }

  lemma EndsWithMeans(f: string, ending: string)
    ensures EndsWith(f, ending) <==> Ends(f, ending)
  {
    if EndsWith(f, ending) {
      assert f == f[..|f| - |ending|] + ending;
    }
    forall b: string | f == b + ending ensures EndsWith(f, ending) {
      assert f[|f| - |ending|..] == ending;
    }
  }

  /** Which hooks are listed, by their names: for every shell those that end in the general
      extension and not in the one name that is left out; for this shell, if there is one,
      those of the others that end in its extension. */
  lemma ListedHooks(workspaces: seq<string>, profile: string -> seq<string>, ext: string, shell: string, h: Hook)
    ensures h in LastOnly(Scan(workspaces, profile, f => Generic(ext, f))) <==>
      FirstWith(workspaces, profile, h)
      && Ends(h.filename, "." + ext) && !Ends(h.filename, "ros_package_path.bat")
    ensures h in LastOnly(Scan(workspaces, profile, f => Specific(ext, shell, f))) <==>
      FirstWith(workspaces, profile, h)
      && !(Ends(h.filename, "." + ext) && !Ends(h.filename, "ros_package_path.bat"))
      && shell != "" && Ends(h.filename, "." + shell)
  {
    hide LastOnly, Scan, FirstWith, Ends, EndsWith;
    FirstWorkspaceWins(workspaces, profile, f => Generic(ext, f), h);
    FirstWorkspaceWins(workspaces, profile, f => Specific(ext, shell, f), h);
    EndsWithMeans(h.filename, "." + ext);
    EndsWithMeans(h.filename, "ros_package_path.bat");
    EndsWithMeans(h.filename, "." + shell);
  }

  predicate NoRepeats(ps: seq<string>) {
    forall j, k :: 0 <= j < k < |ps| ==> ps[j] != ps[k]
  }

  /** No hook is listed twice, neither in one list nor in both. */
  lemma NoHookTwice(workspaces: seq<string>, profile: string -> seq<string>, ext: string, shell: string)
    requires forall ws: string, f: string :: f in profile(ws) ==> FileName(f)
    ensures NoRepeats(PathsOf(LastOnly(Scan(workspaces, profile, f => Generic(ext, f))) +
                              LastOnly(Scan(workspaces, profile, f => Specific(ext, shell, f)))))
  {
    hide LastOnly, Scan, FirstWith, Ends, FileName, PathOf;
    var a := LastOnly(Scan(workspaces, profile, f => Generic(ext, f)));
    var b := LastOnly(Scan(workspaces, profile, f => Specific(ext, shell, f)));
    LastOnlyNames(Scan(workspaces, profile, f => Generic(ext, f)));
    LastOnlyNames(Scan(workspaces, profile, f => Specific(ext, shell, f)));
    var all := a + b;
    forall h: Hook | h in all ensures FileName(h.filename) {
      ListedHooks(workspaces, profile, ext, shell, h);
      FirstHasFile(workspaces, profile, h);
    }
    forall j, k | 0 <= j < k < |all| ensures PathOf(all[j]) != PathOf(all[k]) {
      assert all[j] in all && all[k] in all;
      if j < |a| <= k {
        ListedHooks(workspaces, profile, ext, shell, all[j]);
        ListedHooks(workspaces, profile, ext, shell, all[k]);
      }
      if PathOf(all[j]) == PathOf(all[k]) {
        PathTellsName(all[j], all[k]);
      }
    }
  }

  lemma FirstHasFile(workspaces: seq<string>, profile: string -> seq<string>, h: Hook)
    requires FirstWith(workspaces, profile, h)
    ensures h.filename in profile(h.workspace)
  {
  }
}

module HookTables {
  import opened PathLists
  import opened EnvironmentSpec
  import opened HookSpec
  import HookTheorems

  function IndexOfPath(ps: seq<string>, x: string): (i: nat)
    requires x in ps
    ensures i < |ps| && ps[i] == x && forall j :: 0 <= j < i ==> ps[j] != x
  {
    if ps[0] == x then 0 else 1 + IndexOfPath(ps[1..], x)
  }

  function Without<T>(s: seq<T>, i: nat): seq<T>
    requires i < |s|
  {
    s[..i] + s[i + 1..]
  }

  predicate DifferentNames(hs: seq<Hook>) {
    forall j, k :: 0 <= j < k < |hs| ==> hs[j].filename != hs[k].filename
  }

  lemma {:induction false} OthersIsWithout(hs: seq<Hook>, i: nat)
    requires i < |hs| && DifferentNames(hs)
    ensures Others(hs, hs[i].filename) == Without(hs, i)
    decreases |hs|
  {
    if i == 0 {
      OthersAll(hs[1..], hs[0].filename);
    } else {
      OthersIsWithout(hs[1..], i - 1);
      assert Without(hs, i) == [hs[0]] + Without(hs[1..], i - 1);
    }
  }

  lemma {:induction false} OthersAll(hs: seq<Hook>, f: string)
    requires forall k :: 0 <= k < |hs| ==> hs[k].filename != f
    ensures Others(hs, f) == hs
    decreases |hs|
  {
    if hs != [] {
      OthersAll(hs[1..], f);
    }
  }

  class HookTable {
    var hooks: seq<string>
    var workspaces: seq<string>
    var byFilename: map<string, string>
    ghost var kept: seq<Hook>

    /** The three structures stay aligned. */
    ghost predicate Valid()
      reads this
    {
      && hooks == PathsOf(kept) && workspaces == WorkspacesOf(kept)
      && DifferentNames(kept) && (forall h <- kept :: FileName(h.filename))
      && (forall f :: f in byFilename <==> HasName(kept, f))
      && (forall k :: 0 <= k < |kept| ==> kept[k].filename in byFilename && byFilename[kept[k].filename] == hooks[k])
    }

    constructor ()
      ensures Valid() && kept == []
    {
      hooks, workspaces, byFilename, kept := [], [], map[], [];
    }

    /** Removes the hook of the same name, if there is one, from both lists. */
    method RemovePrevious(h: Hook)
      requires Valid() && FileName(h.filename)
      modifies this`hooks, this`workspaces, this`kept
      ensures kept == Others(old(kept), h.filename)
      ensures hooks == PathsOf(kept) && workspaces == WorkspacesOf(kept)
    {
      hide PathOf, FileName, HasName, Others, IndexOfPath;
      if h.filename in byFilename {
        ghost var k := NameAt(kept, h.filename);
        assert hooks[k] in hooks;
        var i := IndexOfPath(hooks, byFilename[h.filename]);
        PathTellsName(kept[i], kept[k]);
        OthersIsWithout(kept, i);
        hooks := Without(hooks, i);
        workspaces := Without(workspaces, i);
        kept := Without(kept, i);
      } else {
        NotNamed(kept, h.filename);
        OthersAll(kept, h.filename);
      }
    }

    method Add(h: Hook)
      requires Valid() && FileName(h.filename)
      modifies this
      ensures Valid() && kept == Others(old(kept), h.filename) + [h]
    {
      hide PathOf, FileName, HasName, Others, HookDir;
      ghost var was := kept;
      RemovePrevious(h);
      OthersFacts(was, h.filename);
      hooks := hooks + [PathOf(h)];
      workspaces := workspaces + [h.workspace];
      byFilename := byFilename[h.filename := hooks[|hooks| - 1]];
      kept := kept + [h];
      forall f ensures f in byFilename <==> HasName(kept, f) {
        HasNameSnoc(Others(was, h.filename), h, f);
      }
    }
  }

  lemma NameAt(hs: seq<Hook>, f: string) returns (k: nat)
    requires HasName(hs, f)
    ensures k < |hs| && hs[k].filename == f
  {
    k :| 0 <= k < |hs| && hs[k].filename == f;
  }

  /** The hooks of other names are still all different. */
  lemma {:induction false} OthersFacts(hs: seq<Hook>, f: string)
    requires DifferentNames(hs)
    ensures DifferentNames(Others(hs, f))
    ensures forall g <- Others(hs, f) :: g in hs && g.filename != f
    ensures forall n :: HasName(Others(hs, f), n) <==> HasName(hs, n) && n != f
    decreases |hs|
  {
    hide HasName, DifferentNames;
    if hs == [] {
      forall n ensures !HasName(hs, n) {
        NoName(n);
      }
    } else {
      var rest := Others(hs[1..], f);
      assert hs == [hs[0]] + hs[1..] && [] + rest == rest;
      DifferentCons(hs[0], hs[1..]);
      OthersFacts(hs[1..], f);
      forall n ensures HasName(Others(hs, f), n) <==> HasName(hs, n) && n != f {
        HasNameCons(hs[0], hs[1..], n);
        HasNameCons(hs[0], rest, n);
      }
      DifferentCons(hs[0], rest);
    }
  }

  lemma DifferentCons(h: Hook, hs: seq<Hook>)
    ensures DifferentNames([h] + hs) <==> DifferentNames(hs) && !HasName(hs, h.filename)
  {
    var all := [h] + hs;
    if DifferentNames(all) {
      forall k | 0 <= k < |hs| ensures hs[k].filename != h.filename {
        assert all[0] == h && all[k + 1] == hs[k];
      }
      forall j, k | 0 <= j < k < |hs| ensures hs[j].filename != hs[k].filename {
        assert all[j + 1] == hs[j] && all[k + 1] == hs[k];
      }
    }
  }

  /** Scans the hook directory of one workspace. */
  method ScanWorkspace(generic: HookTable, specific: HookTable, workspace: string, names: seq<string>,
                       ext: string, shell: string, ghost before: seq<Hook>, ghost beforeQ: seq<Hook>,
                       ghost p: string -> bool, ghost q: string -> bool)
    requires generic != specific && generic.Valid() && specific.Valid()
    requires generic.kept == LastOnly(before) && specific.kept == LastOnly(beforeQ)
    requires forall f <- names :: FileName(f) && p(f) == Generic(ext, f) && q(f) == Specific(ext, shell, f)
    modifies generic, specific
    ensures generic.Valid() && generic.kept == LastOnly(before + HooksIn(workspace, names, p))
    ensures specific.Valid() && specific.kept == LastOnly(beforeQ + HooksIn(workspace, names, q))
  {
    hide LastOnly, Others, IsGeneric, EndsWith, PathOf, FileName, HasName, HooksIn;
    NoNames(before, workspace, p);
    NoNames(beforeQ, workspace, q);
    assert names[..0] == [];
    for k := 0 to |names|
      invariant generic.Valid() && generic.kept == LastOnly(before + HooksIn(workspace, names[..k], p))
      invariant specific.Valid() && specific.kept == LastOnly(beforeQ + HooksIn(workspace, names[..k], q))
    {
      var filename := names[k];
      var h := Hook(workspace, filename);
      assert filename in names;
      HooksStep(before, workspace, names, k, p);
      HooksStep(beforeQ, workspace, names, k, q);
      LastOnlySnoc(before + HooksIn(workspace, names[..k], p), h);
      LastOnlySnoc(beforeQ + HooksIn(workspace, names[..k], q), h);
      if IsGeneric(filename, ext) {
        generic.Add(h);
      } else if shell != "" && EndsWith(filename, "." + shell) {
        specific.Add(h);
      }
    }
    assert names[..|names|] == names;
  }

  lemma NoNames(before: seq<Hook>, workspace: string, p: string -> bool)
    ensures before + HooksIn(workspace, [], p) == before
  {
  }

  method FindEnvHooks(cmakePrefixPath: string, files: Files, profile: string -> seq<string>, ext: string, shell: string)
    returns (envHooks: seq<string>, envHooksWorkspace: seq<string>)
    requires forall ws: string, f: string :: f in profile(ws) ==> FileName(f)
    ensures var workspaces := Filter(Paths(cmakePrefixPath), files, false, false);
      var kept := LastOnly(Scan(workspaces, profile, f => Generic(ext, f))) +
                  LastOnly(Scan(workspaces, profile, f => Specific(ext, shell, f)));
      envHooks == PathsOf(kept) && envHooksWorkspace == WorkspacesOf(kept)
    ensures HookTheorems.NoRepeats(envHooks)
  {
    hide Paths, Filter, LastOnly, Generic, Specific, PathOf, FileName, HasName, HooksIn, DifferentNames, Scan,
      PathsOf, WorkspacesOf;
    var generic := new HookTable();
    var specific := new HookTable();
    var workspaces := Filter(Paths(cmakePrefixPath), files, false, false);
    ghost var p, q := f => Generic(ext, f), f => Specific(ext, shell, f);
    assert workspaces[|workspaces|..] == [];
    NothingScanned(profile, p);
    NothingScanned(profile, q);
    var w := |workspaces|;
    while w > 0
      invariant 0 <= w <= |workspaces|
      invariant generic.Valid() && generic.kept == LastOnly(Scan(workspaces[w..], profile, p))
      invariant specific.Valid() && specific.kept == LastOnly(Scan(workspaces[w..], profile, q))
    {
      w := w - 1;
      var workspace := workspaces[w];
      var names := profile(workspace);
      ghost var before, beforeQ := Scan(workspaces[w + 1..], profile, p), Scan(workspaces[w + 1..], profile, q);
      ScanWorkspace(generic, specific, workspace, names, ext, shell, before, beforeQ, p, q);
      ScanStep(workspaces, profile, p, w);
      ScanStep(workspaces, profile, q, w);
    }
    assert workspaces[0..] == workspaces;
    envHooks := generic.hooks + specific.hooks;
    envHooksWorkspace := generic.workspaces + specific.workspaces;
    TablesJoin(generic.kept, specific.kept);
    HookTheorems.NoHookTwice(workspaces, profile, ext, shell);
  }

  lemma TablesJoin(a: seq<Hook>, b: seq<Hook>)
    ensures PathsOf(a) + PathsOf(b) == PathsOf(a + b)
    ensures WorkspacesOf(a) + WorkspacesOf(b) == WorkspacesOf(a + b)
  {
    hide PathOf;
  }

  lemma NothingScanned(profile: string -> seq<string>, p: string -> bool)
    ensures LastOnly(Scan([], profile, p)) == []
  {
  }

  lemma ScanStep(workspaces: seq<string>, profile: string -> seq<string>, p: string -> bool, w: nat)
    requires w < |workspaces|
    ensures Scan(workspaces[w..], profile, p) ==
      Scan(workspaces[w + 1..], profile, p) + HooksIn(workspaces[w], profile(workspaces[w]), p)
  {
    hide HooksIn;
    assert workspaces[w..][0] == workspaces[w] && workspaces[w..][1..] == workspaces[w + 1..];
  }

  lemma HooksStep(before: seq<Hook>, workspace: string, names: seq<string>, k: nat, p: string -> bool)
    requires k < |names|
    ensures before + HooksIn(workspace, names[..k + 1], p) ==
      if p(names[k]) then before + HooksIn(workspace, names[..k], p) + [Hook(workspace, names[k])]
      else before + HooksIn(workspace, names[..k], p)
  {
    assert names[..k + 1][..k] == names[..k];
    assert HooksIn(workspace, names[..k], p) + [] == HooksIn(workspace, names[..k], p);
  }
}
