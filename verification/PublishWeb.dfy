/** Publishing a web build into the directory it is served from: assets first, the index page last. */
module PublishWeb {
  import opened Wrappers

  /** A path below the served directory, as its components. */
  type Path = seq<string>

  /** A file is whole, or a copy into it is under way (or was cut short by a crash). */
  datatype File = Whole(content: string) | Cut

  type Tree = map<Path, File>

  datatype Asset = Asset(path: Path, content: string)

  /**
   * What is published: the rewritten page and the links found in it, the build's assets in order, other
   * paths that exist in the build (directories, skipped files), the names given to --allow-replace, and
   * the marker, process id, clock readings that names are made of.
   */
  datatype Plan = Plan(
    html: string, links: seq<Path>, assets: seq<Asset>, others: set<Path>, allowed: seq<string>,
    marker: string, pid: string, millis: string, stamps: seq<string>)

  /** Why an asset cannot be put in place. */
  datatype PutFault = NotADirectory(path: Path) | BackupExists(path: Path)

  datatype Failure =
    | NoIndex
    | NotOneAsset(name: string)
    | IsDirectory(path: Path)
    | Conflict(path: Path)
    | BrokenLink(path: Path)
    | CannotPut(fault: PutFault)
    | NotServed(path: Path)

  const INDEX: Path := ["index.html"]

  // ---------- Names ----------

  function Name(p: Path): string
    requires p != []
  {
    p[|p| - 1]
  }

  function WithName(p: Path, name: string): Path
    requires p != []
  {
    p[..|p| - 1] + [name]
  }

  function Backup(plan: Plan): Path {
    ["index.previous-" + plan.millis + ".html"]
  }

  function PendingIndex(plan: Plan): Path {
    [".index-" + plan.pid + ".tmp"]
  }

  function PendingAsset(plan: Plan, p: Path): Path
    requires p != []
  {
    WithName(p, "." + Name(p) + "." + plan.pid + ".tmp")
  }

  function Saved(plan: Plan, i: nat): Path
    requires WellFormed(plan) && i < |plan.assets|
  {
    var p := plan.assets[i].path;
    WithName(p, Name(p) + ".pre-" + plan.marker + "-" + plan.stamps[i])
  }

  predicate IsDigits(s: string) {
    s != "" && forall i :: 0 <= i < |s| ==> '0' <= s[i] <= '9'
  }

  /** The list of assets names each file once and leaves the index page out; a clock reading is a number. */
  predicate WellFormed(plan: Plan) {
    && (forall i :: 0 <= i < |plan.assets| ==> plan.assets[i].path != [] && plan.assets[i].path != INDEX)
    && (forall i, j :: 0 <= i < j < |plan.assets| ==> plan.assets[i].path != plan.assets[j].path)
    && |plan.stamps| == |plan.assets|
    && (forall i :: 0 <= i < |plan.stamps| ==> IsDigits(plan.stamps[i]))
  }

  predicate IsAsset(plan: Plan, p: Path) {
    exists i :: 0 <= i < |plan.assets| && plan.assets[i].path == p
  }

  /** Is `p` the path of a directory that `q` lies in? */
  predicate Above(p: Path, q: Path) {
    p < q
  }

  predicate AssetBelow(plan: Plan, p: Path) {
    exists i {:trigger Above(p, plan.assets[i].path)} :: 0 <= i < |plan.assets| && Above(p, plan.assets[i].path)
  }

  /** Directories are those above a file, and those in `dirs`, which may be empty. */
  predicate IsDir(s: Tree, dirs: set<Path>, p: Path) {
    p in dirs || exists q {:trigger Above(p, q)} :: q in s && Above(p, q)
  }

  /** A file stands where a directory above the path has to be. */
  predicate Blocked(s: Tree, p: Path) {
    exists q {:trigger Above(q, p)} :: q in s && Above(q, p)
  }

  predicate Unused(start: Tree, dirs: set<Path>, p: Path) {
    p !in start && !IsDir(start, dirs, p)
  }

  /** Nothing stands under the names of this run's temporary files and of its copy of the index page. */
  predicate NamesUnused(plan: Plan, start: Tree, dirs: set<Path>)
    requires WellFormed(plan)
  {
    && Unused(start, dirs, Backup(plan))
    && Unused(start, dirs, PendingIndex(plan)) && !IsAsset(plan, PendingIndex(plan)) && !AssetBelow(plan, PendingIndex(plan))
    && forall i {:trigger PendingAsset(plan, plan.assets[i].path)} :: 0 <= i < |plan.assets| ==>
         var pending := PendingAsset(plan, plan.assets[i].path);
         Unused(start, dirs, pending) && !AssetBelow(plan, pending)
  }

  /** Temporary files and backups never share a name: they end in different letters. */
  lemma NamesDiffer(plan: Plan, p: Path, i: nat)
    requires WellFormed(plan) && p != [] && i < |plan.assets|
    ensures PendingAsset(plan, p) != Saved(plan, i) && PendingAsset(plan, p) != Backup(plan)
    ensures PendingIndex(plan) != Saved(plan, i) && PendingIndex(plan) != Backup(plan)
    ensures Saved(plan, i) != Backup(plan) && Saved(plan, i) != INDEX
  {
    EndsInDigit(plan, i);
    assert Name(PendingAsset(plan, p)) == "." + Name(p) + "." + plan.pid + ".tmp";
    assert Name(Backup(plan)) == "index.previous-" + plan.millis + ".html";
    LastCharacter("." + Name(p) + "." + plan.pid, ".tmp");
    LastCharacter(".index-" + plan.pid, ".tmp");
    LastCharacter("index.previous-" + plan.millis, ".html");
  }

  lemma PendingsDiffer(plan: Plan, p: Path)
    requires p != []
    ensures PendingAsset(plan, p) != PendingIndex(plan)
  {
    var name := Name(p);
    var asset, index := "." + name + "." + plan.pid + ".tmp", ".index-" + plan.pid + ".tmp";
    assert Name(PendingAsset(plan, p)) == asset && Name(PendingIndex(plan)) == index;
    if |name| == 5 {
      assert asset[6] == '.' && index[6] == '-';
    } else {
      assert |asset| != |index|;
    }
  }

  lemma LastCharacter(a: string, b: string)
    requires b != ""
    ensures a + b != "" && (a + b)[|a + b| - 1] == b[|b| - 1]
  {
  }

  lemma EndsInDigit(plan: Plan, i: nat)
    requires WellFormed(plan) && i < |plan.assets|
    ensures var name := Name(Saved(plan, i)); name != "" && '0' <= name[|name| - 1] <= '9'
  {
    LastCharacter(Name(plan.assets[i].path) + ".pre-" + plan.marker + "-", plan.stamps[i]);
  }

  // ---------- Validation ----------

  function CountNamed(assets: seq<Asset>, name: string): nat {
    if assets == [] then 0
    else
      var last := assets[|assets| - 1];
      (if last.path != [] && Name(last.path) == name then 1 else 0) + CountNamed(assets[..|assets| - 1], name)
  }

  /** Hashed assets under these directories are not replaced unless that is allowed by name. */
  predicate Guarded(p: Path) {
    p != [] && (p[0] == "_expo" || p[0] == "assets")
  }

  predicate Differs(start: Tree, a: Asset) {
    a.path in start && start[a.path] != Whole(a.content)
  }

  predicate MayReplace(plan: Plan, a: Asset)
    requires a.path != []
  {
    !Guarded(a.path) || Name(a.path) in plan.allowed
  }

  predicate LinkKnown(plan: Plan, start: Tree, dirs: set<Path>, link: Path) {
    IsAsset(plan, link) || link in plan.others || link in start || IsDir(start, dirs, link)
  }

  /** What validation demands of the plan, of the files that are live and of the live directories. */
  predicate Acceptable(plan: Plan, start: Tree, dirs: set<Path>)
    requires WellFormed(plan)
  {
    && INDEX in start
    && (forall name :: name in plan.allowed ==> CountNamed(plan.assets, name) == 1)
    && (forall i :: 0 <= i < |plan.assets| ==>
          && !IsDir(start, dirs, plan.assets[i].path)
          && (Differs(start, plan.assets[i]) ==> MayReplace(plan, plan.assets[i])))
    && (forall link :: link in plan.links ==> LinkKnown(plan, start, dirs, link))
  }

  /** The fault that a validation failure reports. */
  predicate Explains(failure: Failure, plan: Plan, start: Tree, dirs: set<Path>)
    requires WellFormed(plan)
  {
    match failure
    case NoIndex => INDEX !in start
    case NotOneAsset(name) => name in plan.allowed && CountNamed(plan.assets, name) != 1
    case IsDirectory(p) => IsAsset(plan, p) && IsDir(start, dirs, p)
    case Conflict(p) => exists i :: 0 <= i < |plan.assets| && plan.assets[i].path == p
                                    && Differs(start, plan.assets[i]) && !MayReplace(plan, plan.assets[i])
    case BrokenLink(link) => link in plan.links && !LinkKnown(plan, start, dirs, link)
    case CannotPut(_) => false
    case NotServed(_) => false
  }

  /** A live file that the build would change although it is hashed and its file name is not given as an exception. */
  predicate Unapproved(plan: Plan, start: Tree, i: nat)
    requires i < |plan.assets| && plan.assets[i].path != []
  {
    var p := plan.assets[i].path;
    && (p[0] == "_expo" || p[0] == "assets") && p[|p| - 1] !in plan.allowed
    && p in start && start[p] != Whole(plan.assets[i].content)
  }

  /** The assets with this file name. */
  function Named(assets: seq<Asset>, name: string): set<int> {
    set i | 0 <= i < |assets| && assets[i].path != [] && assets[i].path[|assets[i].path| - 1] == name
  }

  lemma {:induction false} CountNamedMeans(assets: seq<Asset>, name: string)
    ensures CountNamed(assets, name) == |Named(assets, name)|
  {
    if assets == [] {
      assert Named(assets, name) == {};
    } else {
      var n := |assets| - 1;
      CountNamedMeans(assets[..n], name);
      var last := if assets[n].path != [] && Name(assets[n].path) == name then {n} else {};
      assert Named(assets, name) == Named(assets[..n], name) + last;
    }
  }

  /** A path that exists in the live tree, as a file or as a directory. */
  predicate Exists(start: Tree, dirs: set<Path>, p: Path) {
    p in start || p in dirs || exists q :: q in start && p < q
  }

  lemma ExistsMeans(start: Tree, dirs: set<Path>, p: Path)
    ensures Exists(start, dirs, p) <==> p in start || IsDir(start, dirs, p)
  {
    forall q | q in start ensures Above(p, q) <==> p < q {
    }
  }

  /** What validation accepts, read off the plan, the live files and the live directories. */
  predicate Approved(plan: Plan, start: Tree, dirs: set<Path>)
    requires WellFormed(plan)
  {
    && ["index.html"] in start
    && (forall name :: name in plan.allowed ==> |Named(plan.assets, name)| == 1)
    && (forall i :: 0 <= i < |plan.assets| ==> AssetApproved(plan, start, dirs, i))
    && (forall link :: link in plan.links ==>
          || Exists(start, dirs, link) || link in plan.others
          || exists i :: 0 <= i < |plan.assets| && plan.assets[i].path == link)
  }

  /** A directory is not replaced, and a hashed file not without approval. */
  predicate AssetApproved(plan: Plan, start: Tree, dirs: set<Path>, i: nat)
    requires i < |plan.assets| && plan.assets[i].path != []
  {
    var p := plan.assets[i].path;
    p !in dirs && (forall q :: q in start ==> !(p < q)) && !Unapproved(plan, start, i)
  }

  lemma AssetApprovedMeans(plan: Plan, start: Tree, dirs: set<Path>, i: nat)
    requires i < |plan.assets| && plan.assets[i].path != []
    ensures AssetApproved(plan, start, dirs, i) <==>
            && !IsDir(start, dirs, plan.assets[i].path)
            && (Differs(start, plan.assets[i]) ==> MayReplace(plan, plan.assets[i]))
  {
    forall q | q in start ensures Above(plan.assets[i].path, q) <==> plan.assets[i].path < q {
    }
  }

  lemma AcceptableMeans(plan: Plan, start: Tree, dirs: set<Path>)
    requires WellFormed(plan)
    ensures Acceptable(plan, start, dirs) <==> Approved(plan, start, dirs)
  {
    forall name ensures CountNamed(plan.assets, name) == |Named(plan.assets, name)| {
      CountNamedMeans(plan.assets, name);
    }
    forall i | 0 <= i < |plan.assets|
      ensures AssetApproved(plan, start, dirs, i) <==>
              && !IsDir(start, dirs, plan.assets[i].path)
              && (Differs(start, plan.assets[i]) ==> MayReplace(plan, plan.assets[i]))
    {
      AssetApprovedMeans(plan, start, dirs, i);
    }
    forall link ensures Exists(start, dirs, link) <==> link in start || IsDir(start, dirs, link) {
      ExistsMeans(start, dirs, link);
    }
  }

  // ---------- Crash safety ----------

  predicate Serves(plan: Plan, s: Tree) {
    && (forall i :: 0 <= i < |plan.assets| ==>
          plan.assets[i].path in s && s[plan.assets[i].path] == Whole(plan.assets[i].content))
    && (forall link :: link in plan.links ==> link in s)
  }

  /** An asset is as it was, or it is wholly the new one, allowed to be, and its original is saved under a new name. */
  predicate AssetSafe(plan: Plan, start: Tree, s: Tree, i: nat)
    requires WellFormed(plan) && i < |plan.assets|
  {
    var a := plan.assets[i];
    a.path in start ==>
      && a.path in s
      && (s[a.path] == start[a.path] ||
          (&& s[a.path] == Whole(a.content) && MayReplace(plan, a)
           && Saved(plan, i) !in start && Saved(plan, i) in s && s[Saved(plan, i)] == start[a.path]))
  }

  /** No file that was live at the start is lost or cut short, while the index page is still the old one. */
  predicate FilesSafe(plan: Plan, start: Tree, s: Tree)
    requires WellFormed(plan)
  {
    && (forall i :: 0 <= i < |plan.assets| ==> AssetSafe(plan, start, s, i))
    && (forall p :: p in start && p != INDEX && !IsAsset(plan, p) ==> p in s && s[p] == start[p])
  }

  predicate IndexSafe(plan: Plan, start: Tree, s: Tree) {
    && INDEX in start && INDEX in s
    && (s[INDEX] != start[INDEX] ==>
          && s[INDEX] == Whole(plan.html)
          && Backup(plan) in s && s[Backup(plan)] == start[INDEX]
          && Serves(plan, s))
  }

  /**
   * What a crash may leave behind: the old index page, or the new one with everything it needs in place;
   * every file that was there, with its old content or, if replaced, with that content saved.
   */
  predicate CrashSafe(plan: Plan, start: Tree, s: Tree)
    requires WellFormed(plan)
  {
    FilesSafe(plan, start, s) && IndexSafe(plan, start, s)
  }

  /** A safe state whose index page is still the old one and, once it is copied, backed up. */
  predicate Before(plan: Plan, start: Tree, s: Tree)
    requires WellFormed(plan)
  {
    && FilesSafe(plan, start, s)
    && INDEX in start && INDEX in s && s[INDEX] == start[INDEX]
    && Backup(plan) in s && s[Backup(plan)] == start[INDEX]
    && PendingIndex(plan) !in s
  }

  lemma KeepsEverything(plan: Plan, start: Tree, s: Tree)
    requires WellFormed(plan) && Before(plan, start, s)
    ensures forall p :: p in start ==> p in s
  {
    forall p | p in start ensures p in s {
      if IsAsset(plan, p) {
        var i :| 0 <= i < |plan.assets| && plan.assets[i].path == p;
        assert AssetSafe(plan, start, s, i);
      }
    }
  }

  /** Writing a file that is neither an original nor a backup is safe at every moment. */
  lemma WriteIsSafe(plan: Plan, start: Tree, s: Tree, to: Path, file: File)
    requires WellFormed(plan) && Before(plan, start, s)
    requires to !in start && to != PendingIndex(plan)
    requires to !in s || (to != Backup(plan) && forall i :: 0 <= i < |plan.assets| ==> to != Saved(plan, i))
    ensures Before(plan, start, s[to := file])
  {
    var t := s[to := file];
    forall i | 0 <= i < |plan.assets| ensures AssetSafe(plan, start, t, i) {
      assert AssetSafe(plan, start, s, i);
    }
  }

  /** Putting a new asset in the place of an original is safe once the original is saved. */
  lemma ReplaceIsSafe(plan: Plan, start: Tree, s: Tree, i: nat, from: Path)
    requires WellFormed(plan) && Before(plan, start, s) && i < |plan.assets|
    requires var a := plan.assets[i];
             && Differs(start, a) && MayReplace(plan, a)
             && Saved(plan, i) in s && s[Saved(plan, i)] == start[a.path] && Saved(plan, i) !in start
    requires from == PendingAsset(plan, plan.assets[i].path) && from !in start
    requires Backup(plan) !in start && PendingIndex(plan) !in start
    ensures Before(plan, start, (s - {from})[plan.assets[i].path := Whole(plan.assets[i].content)])
  {
    var a := plan.assets[i];
    var t := (s - {from})[a.path := Whole(a.content)];
    NamesDiffer(plan, a.path, i);
    forall j | 0 <= j < |plan.assets| ensures AssetSafe(plan, start, t, j) {
      assert AssetSafe(plan, start, s, j);
      NamesDiffer(plan, a.path, j);
    }
  }

  /** The switch: with every asset in place, the new page takes the old one's place. */
  lemma SwitchIsSafe(plan: Plan, start: Tree, s: Tree)
    requires WellFormed(plan) && Before(plan, start, s) && Serves(plan, s)
    requires PendingIndex(plan) !in start && !IsAsset(plan, PendingIndex(plan))
    ensures var written := s[PendingIndex(plan) := Whole(plan.html)];
            var switched := (written - {PendingIndex(plan)})[INDEX := Whole(plan.html)];
            && CrashSafe(plan, start, s[PendingIndex(plan) := Cut])
            && CrashSafe(plan, start, written)
            && CrashSafe(plan, start, switched) && Serves(plan, switched)
  {
    var pending := PendingIndex(plan);
    var cut, written := s[pending := Cut], s[pending := Whole(plan.html)];
    var switched := (written - {pending})[INDEX := Whole(plan.html)];
    assert pending != Backup(plan) && pending != INDEX by {
      LastCharacter(".index-" + plan.pid, ".tmp");
      LastCharacter("index.previous-" + plan.millis, ".html");
    }
    forall j | 0 <= j < |plan.assets|
      ensures AssetSafe(plan, start, cut, j) && AssetSafe(plan, start, written, j)
    {
      assert AssetSafe(plan, start, s, j);
      NamesDiffer(plan, plan.assets[j].path, j);
    }
    forall j | 0 <= j < |plan.assets| ensures AssetSafe(plan, start, switched, j) {
      assert AssetSafe(plan, start, s, j);
      NamesDiffer(plan, plan.assets[j].path, j);
    }
  }

  // ---------- The procedure ----------

  /** The assets chosen for replacement are those that differ from a live file, and they may replace it. */
  predicate Chosen(plan: Plan, start: Tree, replacements: set<int>)
    requires WellFormed(plan)
  {
    forall i :: 0 <= i < |plan.assets| ==>
      && (i in replacements <==> Differs(start, plan.assets[i]))
      && (Differs(start, plan.assets[i]) ==> MayReplace(plan, plan.assets[i]))
  }

  /** Originals at the places of assets that the copying loop has not reached are as they were. */
  predicate Untouched(plan: Plan, start: Tree, s: Tree, i: nat) {
    forall j :: i <= j < |plan.assets| && plan.assets[j].path in start ==>
      plan.assets[j].path in s && s[plan.assets[j].path] == start[plan.assets[j].path]
  }

  /** The history has grown, and every state added to it is crash safe. */
  ghost predicate Grown(plan: Plan, start: Tree, before: seq<Tree>, after: seq<Tree>)
    requires WellFormed(plan)
  {
    && |before| <= |after| && after[..|before|] == before
    && forall k :: |before| <= k < |after| ==> CrashSafe(plan, start, after[k])
  }

  /** The tree after one asset has been put in place. */
  function AfterAsset(plan: Plan, s: Tree, i: nat, replace: bool): Tree
    requires WellFormed(plan) && i < |plan.assets|
  {
    var a := plan.assets[i];
    if replace && a.path in s then (s[Saved(plan, i) := s[a.path]] - {PendingAsset(plan, a.path)})[a.path := Whole(a.content)]
    else if a.path in s then s
    else s[a.path := Whole(a.content)]
  }

  /** The turn of an asset fails: a file stands above it, or its backup name is taken. */
  predicate TurnFails(plan: Plan, dirs: set<Path>, s: Tree, i: nat, replace: bool)
    requires WellFormed(plan) && i < |plan.assets|
  {
    || Blocked(s, plan.assets[i].path)
    || (replace && (Saved(plan, i) in s || IsDir(s, dirs, Saved(plan, i))))
  }

  /**
   * The turn of an asset in its own terms: when it fails, and what it leaves; a saved original stands
   * beside the asset, under its name with the marker and the time.
   */
  lemma TurnMeans(plan: Plan, dirs: set<Path>, s: Tree, i: nat, saved: Path)
    requires WellFormed(plan) && i < |plan.assets|
    requires var p := plan.assets[i].path;
             saved == p[..|p| - 1] + [p[|p| - 1] + ".pre-" + plan.marker + "-" + plan.stamps[i]]
    ensures TurnFails(plan, dirs, s, i, false) <==> exists q :: q in s && q < plan.assets[i].path
    ensures TurnFails(plan, dirs, s, i, true) <==>
            || (exists q :: q in s && q < plan.assets[i].path)
            || saved in s || saved in dirs || exists q :: q in s && saved < q
    ensures var path, content := plan.assets[i].path, Whole(plan.assets[i].content);
            && AfterAsset(plan, s, i, false) == (if path in s then s else s[path := content])
            && (path in s ==> AfterAsset(plan, s, i, true) == s[saved := s[path]][path := content] - {PendingAsset(plan, path)})
  {
    var path := plan.assets[i].path;
    BlockedMeans(s, path);
    DirectoryMeans(s, dirs, saved);
    assert saved == Saved(plan, i);
    NamesDiffer(plan, path, i);
    var pending := PendingAsset(plan, path);
    assert |Name(pending)| > |Name(path)| && pending != path;
  }

  lemma BlockedMeans(s: Tree, p: Path)
    ensures Blocked(s, p) <==> exists q :: q in s && q < p
  {
    if q :| q in s && q < p {
      assert Above(q, p);
    }
  }

  lemma DirectoryMeans(s: Tree, dirs: set<Path>, p: Path)
    ensures IsDir(s, dirs, p) <==> p in dirs || exists q :: q in s && p < q
  {
    if q :| q in s && p < q {
      assert Above(p, q);
    }
  }

  /** Where the copying loop stands before asset `i`; `first` are the states before the loop. */
  ghost predicate Copying(plan: Plan, start: Tree, dirs: set<Path>, first: seq<Tree>, s: Tree, history: seq<Tree>,
                          i: nat, unique: bool)
    requires WellFormed(plan) && i <= |plan.assets|
  {
    && Before(plan, start, s) && Untouched(plan, start, s, i) && Grown(plan, start, first, history)
    && (unique ==> Fresh(plan, start, dirs) && Placed(plan, start, s, i) && NoneBlocked(plan, start, i))
  }

  lemma GrownTwice(plan: Plan, start: Tree, a: seq<Tree>, b: seq<Tree>, c: seq<Tree>)
    requires WellFormed(plan) && Grown(plan, start, a, b) && Grown(plan, start, b, c)
    ensures Grown(plan, start, a, c)
  {
    forall k | |a| <= k < |c| ensures CrashSafe(plan, start, c[k]) {
      if k < |b| {
        assert c[..|b|][k] == b[k];
      }
    }
    assert c[..|a|] == c[..|b|][..|a|];
  }

  /** Copying the index page to its backup name is safe at every moment. */
  lemma BackupIsSafe(plan: Plan, start: Tree)
    requires WellFormed(plan) && INDEX in start && Backup(plan) !in start && PendingIndex(plan) !in start
    ensures CrashSafe(plan, start, start[Backup(plan) := Cut])
    ensures var s := start[Backup(plan) := start[INDEX]];
            CrashSafe(plan, start, s) && Before(plan, start, s) && Untouched(plan, start, s, 0)
  {
    assert Backup(plan) != INDEX && PendingIndex(plan) != Backup(plan) by {
      LastCharacter(".index-" + plan.pid, ".tmp");
      LastCharacter("index.previous-" + plan.millis, ".html");
    }
    var cut, s := start[Backup(plan) := Cut], start[Backup(plan) := start[INDEX]];
    forall i | 0 <= i < |plan.assets| ensures AssetSafe(plan, start, cut, i) && AssetSafe(plan, start, s, i) {
    }
  }

  /** The files that were replaced, in order, each with the name its original is kept under. */
  function ReplacedBefore(plan: Plan, start: Tree, n: nat): seq<(Path, Path)>
    requires WellFormed(plan) && n <= |plan.assets|
  {
    if n == 0 then []
    else if Differs(start, plan.assets[n - 1]) then
      ReplacedBefore(plan, start, n - 1) + [(plan.assets[n - 1].path, Saved(plan, n - 1))]
    else ReplacedBefore(plan, start, n - 1)
  }

  /** What is reported: the assets that were live with other content, each with a name beside it in the same directory. */
  lemma {:induction false} ReportedMeans(plan: Plan, start: Tree, n: nat)
    requires WellFormed(plan) && n <= |plan.assets|
    ensures forall from: Path, to: Path :: (from, to) in ReplacedBefore(plan, start, n) <==>
              exists i :: 0 <= i < n && plan.assets[i].path == from && from in start
                          && start[from] != Whole(plan.assets[i].content)
                          && to == from[..|from| - 1] + [from[|from| - 1] + ".pre-" + plan.marker + "-" + plan.stamps[i]]
  {
    if n > 0 {
      ReportedMeans(plan, start, n - 1);
    }
  }

  /** The other names that are made up: the backup of the page, and the files that are moved into place. */
  lemma GeneratedNames(plan: Plan, p: Path, name: string)
    ensures Backup(plan) == ["index.previous-" + plan.millis + ".html"]
    ensures PendingIndex(plan) == [".index-" + plan.pid + ".tmp"]
    ensures PendingAsset(plan, p + [name]) == p + ["." + name + "." + plan.pid + ".tmp"]
  {
    assert (p + [name])[..|p|] == p;
  }

  // ---------- When publishing succeeds ----------

  /** A generated name that is no asset, above no asset and not linked to. */
  predicate Unshared(plan: Plan, p: Path) {
    !IsAsset(plan, p) && !AssetBelow(plan, p) && p !in plan.links
  }

  /** The build is a tree: no file of it lies below another. */
  predicate IsTree(plan: Plan) {
    forall i, j {:trigger Above(plan.assets[i].path, plan.assets[j].path)} ::
      0 <= i < |plan.assets| && 0 <= j < |plan.assets| ==> !Above(plan.assets[i].path, plan.assets[j].path)
  }

  /** The build is a tree, and every generated name is new: to the live tree, the build, the links and the others. */
  predicate Fresh(plan: Plan, start: Tree, dirs: set<Path>)
    requires WellFormed(plan)
  {
    && IsTree(plan) && NamesUnused(plan, start, dirs) && Unshared(plan, Backup(plan))
    && forall i {:trigger Saved(plan, i)} :: 0 <= i < |plan.assets| ==>
         && Unused(start, dirs, Saved(plan, i)) && Unshared(plan, Saved(plan, i))
         && !IsAsset(plan, PendingAsset(plan, plan.assets[i].path))
         && forall j :: 0 <= j < i ==> Saved(plan, i) != Saved(plan, j)
  }

  /** No asset lies below a live file. */
  predicate NoneBlocked(plan: Plan, start: Tree, n: nat) {
    forall i :: 0 <= i < n && i < |plan.assets| ==> !Blocked(start, plan.assets[i].path)
  }

  /** The page links to files of the build and to files that are live, not to directories or skipped files. */
  predicate LinksServed(plan: Plan, start: Tree) {
    forall link :: link in plan.links ==> IsAsset(plan, link) || link in start
  }

  predicate PlacedAt(plan: Plan, s: Tree, j: nat)
    requires j < |plan.assets|
  {
    plan.assets[j].path in s && s[plan.assets[j].path] == Whole(plan.assets[j].content)
  }

  predicate WaitingAt(plan: Plan, start: Tree, s: Tree, j: nat)
    requires WellFormed(plan) && j < |plan.assets|
  {
    var p := plan.assets[j].path;
    (p in s <==> p in start) && (p in s ==> s[p] == start[p]) && Saved(plan, j) !in s
  }

  /** A name under which this run keeps an original. */
  predicate IsBackup(plan: Plan, p: Path)
    requires WellFormed(plan)
  {
    p == Backup(plan) || exists i :: 0 <= i < |plan.assets| && Saved(plan, i) == p
  }

  /** With fresh names the first assets are in place, the others as they were, and only backups are there besides. */
  predicate Placed(plan: Plan, start: Tree, s: Tree, i: nat)
    requires WellFormed(plan)
  {
    && (forall j :: 0 <= j < i && j < |plan.assets| ==> PlacedAt(plan, s, j))
    && (forall j :: i <= j < |plan.assets| ==> WaitingAt(plan, start, s, j))
    && (forall p :: p in s ==> p in start || IsAsset(plan, p) || IsBackup(plan, p))
    && start.Keys <= s.Keys
  }

  /** With fresh names, putting one asset in place touches no other asset and no other asset's backup name. */
  lemma OthersKeep(plan: Plan, start: Tree, dirs: set<Path>, s: Tree, i: nat, j: nat)
    requires WellFormed(plan) && i < |plan.assets| && j < |plan.assets| && i != j && Fresh(plan, start, dirs)
    ensures var t, p := AfterAsset(plan, s, i, Differs(start, plan.assets[i])), plan.assets[j].path;
            && (p in t <==> p in s) && (p in s ==> t[p] == s[p])
            && (Saved(plan, j) in t <==> Saved(plan, j) in s)
  {
    assert IsAsset(plan, plan.assets[j].path) && IsAsset(plan, plan.assets[i].path);
    NamesDiffer(plan, plan.assets[i].path, j);
    assert Saved(plan, i) != Saved(plan, j);
  }

  lemma PlacedNext(plan: Plan, start: Tree, dirs: set<Path>, s: Tree, i: nat)
    requires WellFormed(plan) && i < |plan.assets| && Fresh(plan, start, dirs)
    requires Placed(plan, start, s, i) && WaitingAt(plan, start, s, i)
    ensures Placed(plan, start, AfterAsset(plan, s, i, Differs(start, plan.assets[i])), i + 1)
  {
    var t := AfterAsset(plan, s, i, Differs(start, plan.assets[i]));
    forall j | 0 <= j <= i ensures PlacedAt(plan, t, j) {
      if j < i {
        assert PlacedAt(plan, s, j);
        OthersKeep(plan, start, dirs, s, i, j);
      }
    }
    forall j | i < j < |plan.assets| ensures WaitingAt(plan, start, t, j) {
      assert WaitingAt(plan, start, s, j);
      OthersKeep(plan, start, dirs, s, i, j);
    }
    forall p | p in t ensures p in start || IsAsset(plan, p) || IsBackup(plan, p) {
      assert IsAsset(plan, plan.assets[i].path) && IsBackup(plan, Saved(plan, i));
    }
  }

  /** What lies above a backup lies above an asset. */
  lemma BelowSibling(plan: Plan, i: nat, q: Path)
    requires WellFormed(plan) && i < |plan.assets| && IsBackup(plan, q) && Above(Saved(plan, i), q)
    ensures AssetBelow(plan, Saved(plan, i))
  {
    assert |Saved(plan, i)| >= 1;
    var j :| 0 <= j < |plan.assets| && Saved(plan, j) == q;
    assert q[..|q| - 1] == plan.assets[j].path[..|q| - 1];
    assert Above(Saved(plan, i), plan.assets[j].path);
  }

  /** With fresh names this run puts no file above an asset, and no directory under a saved asset's name. */
  lemma NothingInTheWay(plan: Plan, start: Tree, dirs: set<Path>, s: Tree, i: nat)
    requires WellFormed(plan) && i < |plan.assets| && Fresh(plan, start, dirs)
    requires Placed(plan, start, s, i)
    ensures Blocked(s, plan.assets[i].path) <==> Blocked(start, plan.assets[i].path)
    ensures !IsDir(s, dirs, Saved(plan, i))
  {
    forall q | q in s && Above(q, plan.assets[i].path) ensures q in start {
      assert AssetBelow(plan, q);
    }
    forall q | q in s ensures !Above(Saved(plan, i), q) {
      if IsBackup(plan, q) && Above(Saved(plan, i), q) {
        BelowSibling(plan, i, q);
      }
    }
  }

  /** With its backup copied, the index page is the only change. */
  lemma PlacedAtFirst(plan: Plan, start: Tree, dirs: set<Path>)
    requires WellFormed(plan) && Fresh(plan, start, dirs) && INDEX in start
    ensures Placed(plan, start, start[Backup(plan) := start[INDEX]], 0)
  {
    var s := start[Backup(plan) := start[INDEX]];
    forall j | 0 <= j < |plan.assets| ensures WaitingAt(plan, start, s, j) {
      assert IsAsset(plan, plan.assets[j].path);
      NamesDiffer(plan, plan.assets[j].path, j);
    }
  }

  /** With fresh names the turn of an asset fails only below a live file, and otherwise puts it in place. */
  lemma TurnWhenFresh(plan: Plan, dirs: set<Path>, start: Tree, s: Tree, i: nat)
    requires WellFormed(plan) && i < |plan.assets| && Fresh(plan, start, dirs) && Placed(plan, start, s, i)
    ensures TurnFails(plan, dirs, s, i, Differs(start, plan.assets[i])) <==> Blocked(start, plan.assets[i].path)
    ensures Placed(plan, start, AfterAsset(plan, s, i, Differs(start, plan.assets[i])), i + 1)
  {
    assert WaitingAt(plan, start, s, i);
    NothingInTheWay(plan, start, dirs, s, i);
    PlacedNext(plan, start, dirs, s, i);
  }

  /** With every asset in place, all that the check of the served tree can find is a link to no file. */
  lemma PlacedServes(plan: Plan, start: Tree, dirs: set<Path>, s: Tree)
    requires WellFormed(plan) && Fresh(plan, start, dirs)
    requires Placed(plan, start, s, |plan.assets|)
    ensures Serves(plan, s) <==> LinksServed(plan, start)
  {
    forall i | 0 <= i < |plan.assets|
      ensures plan.assets[i].path in s && s[plan.assets[i].path] == Whole(plan.assets[i].content)
    {
      assert PlacedAt(plan, s, i);
    }
    forall link | link in plan.links ensures link in s <==> IsAsset(plan, link) || link in start {
      if IsAsset(plan, link) {
        var i :| 0 <= i < |plan.assets| && plan.assets[i].path == link;
        assert PlacedAt(plan, s, i);
      }
    }
  }

  class LiveTree {
    var files: Tree

    /** Every state the tree has been in, oldest first. */
    ghost var history: seq<Tree>

    constructor (files: Tree)
      ensures this.files == files && history == [files]
    {
      this.files := files;
      history := [files];
    }

    /** A copy passes through a state in which the destination is cut short. */
    method Copy(file: File, to: Path)
      modifies this
      ensures files == old(files)[to := file]
      ensures history == old(history) + [old(files)[to := Cut], files]
    {
      files := files[to := Cut];
      history := history + [files];
      files := files[to := file];
      history := history + [files];
    }

    /** os.replace is atomic. */
    method Replace(from: Path, to: Path)
      requires from in files
      modifies this
      ensures files == (old(files) - {from})[to := old(files)[from]]
      ensures history == old(history) + [files]
    {
      files := (files - {from})[to := files[from]];
      history := history + [files];
    }

    /** Each exception names one asset. */
    method CheckExceptions(plan: Plan) returns (failure: Option<Failure>)
      ensures failure.None? <==> forall name :: name in plan.allowed ==> CountNamed(plan.assets, name) == 1
      ensures failure.Some? ==>
                failure.value.NotOneAsset? && failure.value.name in plan.allowed
                && CountNamed(plan.assets, failure.value.name) != 1
    {
      var k := 0;
      while k < |plan.allowed|
        invariant 0 <= k <= |plan.allowed|
        invariant forall j :: 0 <= j < k ==> CountNamed(plan.assets, plan.allowed[j]) == 1
      {
        var name := plan.allowed[k];
        assert name in plan.allowed;
        if CountNamed(plan.assets, name) != 1 {
          return Some(NotOneAsset(name));
        }
        k := k + 1;
      }
      failure := None;
    }

    /** No asset is a live directory, and each that differs from a live file may replace it. */
    method CheckAssets(plan: Plan, dirs: set<Path>) returns (failure: Option<Failure>, replacements: set<int>)
      requires WellFormed(plan)
      ensures failure.None? <==>
              forall i :: 0 <= i < |plan.assets| ==>
                && !IsDir(files, dirs, plan.assets[i].path)
                && (Differs(files, plan.assets[i]) ==> MayReplace(plan, plan.assets[i]))
      ensures failure.Some? ==>
                (failure.value.IsDirectory? || failure.value.Conflict?) && Explains(failure.value, plan, files, dirs)
      ensures failure.None? ==>
                forall i :: 0 <= i < |plan.assets| ==> (i in replacements <==> Differs(files, plan.assets[i]))
    {
      replacements := {};
      var k := 0;
      while k < |plan.assets|
        invariant 0 <= k <= |plan.assets|
        invariant forall i :: i in replacements ==> 0 <= i < k
        invariant forall i :: 0 <= i < k ==> (i in replacements <==> Differs(files, plan.assets[i]))
        invariant forall i :: 0 <= i < k ==>
                    && !IsDir(files, dirs, plan.assets[i].path)
                    && (Differs(files, plan.assets[i]) ==> MayReplace(plan, plan.assets[i]))
      {
        var a := plan.assets[k];
        if IsDir(files, dirs, a.path) {
          return Some(IsDirectory(a.path)), replacements;
        }
        if a.path in files && files[a.path] != Whole(a.content) {
          if Guarded(a.path) && Name(a.path) !in plan.allowed {
            return Some(Conflict(a.path)), replacements;
          }
          replacements := replacements + {k};
        }
        k := k + 1;
      }
      failure := None;
    }

    /** Every link leads to something in the build or in the live tree. */
    method CheckLinks(plan: Plan, dirs: set<Path>) returns (failure: Option<Failure>)
      ensures failure.None? <==> forall link :: link in plan.links ==> LinkKnown(plan, files, dirs, link)
      ensures failure.Some? ==>
                failure.value.BrokenLink? && failure.value.path in plan.links
                && !LinkKnown(plan, files, dirs, failure.value.path)
    {
      var k := 0;
      while k < |plan.links|
        invariant 0 <= k <= |plan.links|
        invariant forall j :: 0 <= j < k ==> LinkKnown(plan, files, dirs, plan.links[j])
      {
        if !LinkKnown(plan, files, dirs, plan.links[k]) {
          return Some(BrokenLink(plan.links[k]));
        }
        k := k + 1;
      }
      failure := None;
    }

    /** The checks made before anything changes. */
    method Validate(plan: Plan, dirs: set<Path>) returns (failure: Option<Failure>, replacements: set<int>)
      requires WellFormed(plan)
      ensures failure.None? <==> Acceptable(plan, files, dirs)
      ensures failure.None? <==> Approved(plan, files, dirs)
      ensures failure.Some? ==> Explains(failure.value, plan, files, dirs)
      // A hashed asset is not replaced without approval, and an asset is refused as a conflict for no other reason.
      ensures (exists i :: 0 <= i < |plan.assets| && Unapproved(plan, files, i)) ==> failure.Some?
      ensures forall p :: failure == Some(Conflict(p)) ==>
                exists i :: 0 <= i < |plan.assets| && plan.assets[i].path == p && Unapproved(plan, files, i)
      ensures failure.None? ==>
                forall i :: 0 <= i < |plan.assets| ==> (i in replacements <==> Differs(files, plan.assets[i]))
    {
      AcceptableMeans(plan, files, dirs);
      replacements := {};
      if INDEX !in files {
        return Some(NoIndex), replacements;
      }
      failure := CheckExceptions(plan);
      if failure.None? {
        failure, replacements := CheckAssets(plan, dirs);
      }
      if failure.None? {
        failure := CheckLinks(plan, dirs);
      }
    }

    /** Saves an original under its backup name, then puts the new asset in its place. */
    method SaveAndReplace(plan: Plan, i: nat, ghost start: Tree, ghost dirs: set<Path>)
      requires WellFormed(plan) && NamesUnused(plan, start, dirs) && i < |plan.assets|
      requires Before(plan, start, files) && Saved(plan, i) !in files
      requires var a := plan.assets[i];
               Differs(start, a) && MayReplace(plan, a) && a.path in files && files[a.path] == start[a.path]
      modifies this
      ensures Before(plan, start, files) && Grown(plan, start, old(history), history)
      ensures files == AfterAsset(plan, old(files), i, true)
    {
      var path, content, saved := plan.assets[i].path, plan.assets[i].content, Saved(plan, i);
      NamesDiffer(plan, path, i);
      PendingsDiffer(plan, path);
      KeepsEverything(plan, start, files);
      WriteIsSafe(plan, start, files, saved, Cut);
      WriteIsSafe(plan, start, files, saved, files[path]);
      Copy(files[path], saved);
      var pending := PendingAsset(plan, path);
      forall j | 0 <= j < |plan.assets| ensures pending != Saved(plan, j) {
        NamesDiffer(plan, path, j);
      }
      WriteIsSafe(plan, start, files, pending, Cut);
      WriteIsSafe(plan, start, files, pending, Whole(content));
      Copy(Whole(content), pending);
      ReplaceIsSafe(plan, start, files, i, pending);
      Replace(pending, path);
    }

    /** Writes the new page under a temporary name and moves it over the old one. */
    method SwitchIndex(plan: Plan, ghost start: Tree, ghost dirs: set<Path>)
      requires WellFormed(plan) && NamesUnused(plan, start, dirs)
      requires Before(plan, start, files) && Serves(plan, files)
      modifies this
      ensures CrashSafe(plan, start, files) && Serves(plan, files)
      ensures INDEX in files && files[INDEX] == Whole(plan.html)
      ensures Grown(plan, start, old(history), history)
    {
      SwitchIsSafe(plan, start, files);
      Copy(Whole(plan.html), PendingIndex(plan));
      Replace(PendingIndex(plan), INDEX);
    }

    /** One asset of the copying loop; `start` is the tree that was validated. */
    method PutAsset(plan: Plan, dirs: set<Path>, i: nat, replace: bool, ghost start: Tree)
      returns (failure: Option<PutFault>)
      requires WellFormed(plan) && NamesUnused(plan, start, dirs) && i < |plan.assets|
      requires Before(plan, start, files) && Untouched(plan, start, files, i)
      requires var a := plan.assets[i]; replace == Differs(start, a) && (replace ==> MayReplace(plan, a))
      modifies this
      ensures Before(plan, start, files) && Untouched(plan, start, files, i + 1)
      ensures Grown(plan, start, old(history), history)
      ensures failure.Some? <==> TurnFails(plan, dirs, old(files), i, replace)
      ensures failure.Some? ==> failure.value == if Blocked(old(files), plan.assets[i].path)
                                                 then NotADirectory(plan.assets[i].path) else BackupExists(Saved(plan, i))
      ensures files == if failure.Some? then old(files) else AfterAsset(plan, old(files), i, replace)
    {
      var a := plan.assets[i];
      if Blocked(files, a.path) {
        return Some(NotADirectory(a.path));
      }
      if replace {
        var saved := Saved(plan, i);
        if saved in files || IsDir(files, dirs, saved) {
          return Some(BackupExists(saved));
        }
        SaveAndReplace(plan, i, start, dirs);
      } else if a.path !in files {
        KeepsEverything(plan, start, files);
        WriteIsSafe(plan, start, files, a.path, Cut);
        WriteIsSafe(plan, start, files, a.path, Whole(a.content));
        Copy(Whole(a.content), a.path);
      }
      failure := None;
    }

    /** One turn of the copying loop: the asset, and the report of what it replaced. */
    method TakeTurn(plan: Plan, dirs: set<Path>, i: nat, replacements: set<int>, before: seq<(Path, Path)>,
                    ghost start: Tree, ghost unique: bool, ghost first: seq<Tree>)
      returns (failure: Option<PutFault>, replaced: seq<(Path, Path)>)
      requires WellFormed(plan) && NamesUnused(plan, start, dirs) && Chosen(plan, start, replacements)
      requires i < |plan.assets| && before == ReplacedBefore(plan, start, i)
      requires Copying(plan, start, dirs, first, files, history, i, unique)
      modifies this
      ensures Before(plan, start, files) && Grown(plan, start, first, history)
      ensures failure.None? ==> Copying(plan, start, dirs, first, files, history, i + 1, unique)
      ensures failure.None? ==> replaced == ReplacedBefore(plan, start, i + 1)
      ensures unique && failure.Some? ==> !NoneBlocked(plan, start, |plan.assets|)
    {
      var replace := i in replacements;
      if unique {
        TurnWhenFresh(plan, dirs, start, files, i);
      }
      failure := PutAsset(plan, dirs, i, replace, start);
      GrownTwice(plan, start, first, old(history), history);
      replaced := before;
      if failure.None? && replace {
        replaced := replaced + [(plan.assets[i].path, Saved(plan, i))];
      }
    }

    /** The copying loop: every asset in turn; returns the files replaced, each with its backup. */
    method PutAssets(plan: Plan, dirs: set<Path>, replacements: set<int>, ghost start: Tree, ghost unique: bool)
      returns (r: Result<seq<(Path, Path)>, PutFault>)
      requires WellFormed(plan) && NamesUnused(plan, start, dirs) && Chosen(plan, start, replacements)
      requires Copying(plan, start, dirs, history, files, history, 0, unique)
      modifies this
      ensures Before(plan, start, files) && Grown(plan, start, old(history), history)
      ensures r.Ok? ==> r.value == ReplacedBefore(plan, start, |plan.assets|)
      ensures r.Ok? ==> Copying(plan, start, dirs, old(history), files, history, |plan.assets|, unique)
      ensures r.Err? && unique ==> !NoneBlocked(plan, start, |plan.assets|)
    {
      var replaced: seq<(Path, Path)> := [];
      for i := 0 to |plan.assets|
        invariant Copying(plan, start, dirs, old(history), files, history, i, unique)
        invariant replaced == ReplacedBefore(plan, start, i)
      {
        var failure;
        failure, replaced := TakeTurn(plan, dirs, i, replacements, replaced, start, unique, old(history));
        if failure.Some? {
          return Err(failure.value);
        }
      }
      r := Ok(replaced);
    }

    /** The check of the served tree. */
    method CheckServed(plan: Plan) returns (failure: Option<Failure>)
      requires WellFormed(plan)
      ensures failure.None? <==> Serves(plan, files)
      ensures failure.Some? ==> failure.value.NotServed?
    {
      var k := 0;
      while k < |plan.assets|
        invariant 0 <= k <= |plan.assets|
        invariant forall i :: 0 <= i < k ==>
                    plan.assets[i].path in files && files[plan.assets[i].path] == Whole(plan.assets[i].content)
      {
        var a := plan.assets[k];
        if a.path !in files || files[a.path] != Whole(a.content) {
          return Some(NotServed(a.path));
        }
        k := k + 1;
      }
      k := 0;
      while k < |plan.links|
        invariant 0 <= k <= |plan.links|
        invariant forall j :: 0 <= j < k ==> plan.links[j] in files
      {
        if plan.links[k] !in files {
          return Some(NotServed(plan.links[k]));
        }
        k := k + 1;
      }
      failure := None;
    }

    /**
     * Publishes the build. A crash at any moment leaves a crash-safe tree; a plan that validation refuses
     * changes nothing; success means that the new page and all it needs are served.
     */
    method Publish(plan: Plan, dirs: set<Path>) returns (r: Result<seq<(Path, Path)>, Failure>)
      requires WellFormed(plan) && NamesUnused(plan, files, dirs)
      modifies this
      ensures Grown(plan, old(files), old(history), history)
      ensures !Acceptable(plan, old(files), dirs) ==>
                && r.Err? && Explains(r.error, plan, old(files), dirs)
                && files == old(files) && history == old(history)
      // A hashed asset that would change without approval stops the publication before anything changes.
      ensures (exists i :: 0 <= i < |plan.assets| && Unapproved(plan, old(files), i)) ==>
                r.Err? && files == old(files) && history == old(history)
      ensures forall p :: r == Err(Conflict(p)) ==>
                exists i :: 0 <= i < |plan.assets| && plan.assets[i].path == p && Unapproved(plan, old(files), i)
      ensures Acceptable(plan, old(files), dirs) ==> CrashSafe(plan, old(files), files)
      ensures r.Ok? ==> Serves(plan, files) && INDEX in files && files[INDEX] == Whole(plan.html)
      ensures r.Ok? ==> r.value == ReplacedBefore(plan, old(files), |plan.assets|)
      ensures r.Err? && INDEX in old(files) ==> INDEX in files && files[INDEX] == old(files)[INDEX]
      ensures Fresh(plan, old(files), dirs) ==>
                (r.Ok? <==>
                  && Acceptable(plan, old(files), dirs)
                  && NoneBlocked(plan, old(files), |plan.assets|) && LinksServed(plan, old(files)))
    {
      ghost var start := files;
      var failure, replacements := Validate(plan, dirs);
      if failure.Some? {
        return Err(failure.value);
      }
      BackupIsSafe(plan, start);
      ghost var before := history;
      Copy(files[INDEX], Backup(plan));
      assert Grown(plan, start, before, history);
      ghost var backedUp := history;
      ghost var unique := Fresh(plan, start, dirs);
      if unique {
        PlacedAtFirst(plan, start, dirs);
      }
      var put := PutAssets(plan, dirs, replacements, start, unique);
      GrownTwice(plan, start, before, backedUp, history);
      if put.Err? {
        return Err(CannotPut(put.error));
      }
      failure := CheckServed(plan);
      if failure.Some? {
        if Fresh(plan, start, dirs) {
          PlacedServes(plan, start, dirs, files);
        }
        return Err(failure.value);
      }
      if Fresh(plan, start, dirs) {
        PlacedServes(plan, start, dirs, files);
      }
      ghost var checked := history;
      SwitchIndex(plan, start, dirs);
      GrownTwice(plan, start, before, checked, history);
      r := Ok(put.value);
    }
  }
}
