/** The addon installer: how a package of type "whsuite-addon" is mapped to a
    directory under the project's addon directory, and how install, update and
    uninstall drive the host's download manager, filesystem helper and
    installed-package repository. The collaborators' work is recorded as a log
    of actions, one per call, in the order the installer makes them. */
module Installer {
  import opened PhpStrings

  /** A package descriptor; the repository tells packages apart by name and version. */
  datatype Package = Package(name: string, version: string)

  /** One call into a collaborator. */
  datatype Action =
    | Download(pkg: Package, path: string)                       // download manager: download
    | Update(initial: Package, target: Package, path: string)    // download manager: update
    | Remove(pkg: Package, path: string)                         // download manager: remove
    | Rename(from: string, to: string)                           // filesystem: rename
    | EnsureDir(path: string)                                    // filesystem: ensureDirectoryExists

  /** The invalid-argument error raised for a package that is not installed. */
  datatype Error = InvalidArgument(pkg: Package)

  datatype Outcome = Pass | Fail(error: Error)

  const AddonType := "whsuite-addon"
  /** What `explode` splits package names on, on every platform. */
  const NameSeparator := '/'
  /** The platform's directory separator, fixed to the POSIX one. */
  const DirSeparator := '/'
  const DefaultAddonDir := "app" + [DirSeparator] + "addons"

  /** Package names have the form vendor/name. */
  predicate HasVendor(name: string) {
    NameSeparator in name
  }

  /** The installer handles exactly the addon package type. */
  function Supports(packageType: string): (r: bool)
    ensures r <==> packageType == AddonType
  {
    packageType == AddonType
  }

  /** The directory name an addon gets: lower-cased, every "addon-" deleted in
      one scan, then every '-' turned into '_'. */
  function DirName(rest: string): (r: string)
    ensures forall c :: c in r ==> c != '-' && !IsUpperAscii(c)
  {
    var lowered := ToLower(rest);
    var unmarked := StrReplace("addon-", "", lowered);
    StrReplaceDrawsFrom("addon-", "", lowered);
    StrReplaceOneChar('-', '_', unmarked);
    StrReplace("-", "_", unmarked)
  }

  /** A leading marker is dropped, whatever follows it. */
  lemma MarkerStripped(rest: string)
    ensures DirName("addon-" + rest) == DirName(rest)
  {
    var lowered := ToLower(rest);
    ToLowerConcat("addon-", rest);
    assert ToLower("addon-") == "addon-";
    assert ToLower("addon-" + rest) == "addon-" + lowered;
    StrReplaceLeading("addon-", "", lowered);
    assert StrReplace("addon-", "", "addon-" + lowered) == StrReplace("addon-", "", lowered);
  }

  /** The install path of the package called `name` under `addonDir`: the text
      after the first '/' of the name, rewritten, appended under `addonDir`. It
      has no '-' and no upper-case ASCII letter; later '/'s in the name are kept,
      so such a name lands more than one level below `addonDir`. */
  function InstallPath(addonDir: string, name: string): (path: string)
    requires HasVendor(name)
    ensures |addonDir| < |path|
    ensures path[..|addonDir|] == addonDir && path[|addonDir|] == DirSeparator
    ensures forall c :: c in path[|addonDir| + 1..] ==> c != '-' && !IsUpperAscii(c)
  {
    var (_, rest) := ExplodeOnce(name, NameSeparator);
    var path := addonDir + [DirSeparator] + DirName(rest);
    assert path[|addonDir| + 1..] == DirName(rest);
    path
  }

  /** Only the part of the name after the first '/' matters: the vendor is ignored. */
  lemma InstallPathIgnoresVendor(addonDir: string, vendor: string, rest: string)
    requires NameSeparator !in vendor
    ensures HasVendor(vendor + [NameSeparator] + rest)
    ensures InstallPath(addonDir, vendor + [NameSeparator] + rest) == addonDir + [DirSeparator] + DirName(rest)
  {
    ExplodeOnceJoin(vendor, NameSeparator, rest);
  }

  // Facts about the literals of the two examples below, each group in a lemma
  // of its own so that the solver never unfolds all the string functions at once.

  lemma LowerExamples()
    ensures ToLower("addon-Some-Thing") == "addon-" + "some-thing"
    ensures ToLower("Widget-Core") == "widget-core"
  {
  }

  lemma Unmarked(x: string)
    requires 'a' !in x
    ensures StrReplace("addon-", "", x) == x
    ensures StrReplace("addon-", "", "addon-" + x) == x
  {
    StrReplaceAbsent("addon-", "", x);
    StrReplaceLeading("addon-", "", x);
  }

  lemma UnmarkExamples()
    ensures StrReplace("addon-", "", "addon-" + "some-thing") == "some-thing"
    ensures StrReplace("addon-", "", "widget-core") == "widget-core"
  {
    Unmarked("some-thing");
    Unmarked("widget-core");
  }

  lemma Underscored(s: string, u: string)
    requires ReplaceEach('-', '_', s) == u
    ensures StrReplace("-", "_", s) == u
  {
    StrReplaceOneChar('-', '_', s);
  }

  lemma UnderscoreExamples()
    ensures StrReplace("-", "_", "some-thing") == "some_thing"
    ensures StrReplace("-", "_", "widget-core") == "widget_core"
  {
    assert ReplaceEach('-', '_', "some-thing") == "some_thing";
    Underscored("some-thing", "some_thing");
    assert ReplaceEach('-', '_', "widget-core") == "widget_core";
    Underscored("widget-core", "widget_core");
  }

  lemma DirNameExamples()
    ensures DirName("addon-Some-Thing") == "some_thing"
    ensures DirName("Widget-Core") == "widget_core"
  {
    LowerExamples();
    UnmarkExamples();
    UnderscoreExamples();
  }

  /** "vendor/addon-Some-Thing" is installed in app/addons/some_thing. */
  lemma InstallPathWithMarker()
    ensures InstallPath(DefaultAddonDir, "vendor/addon-Some-Thing") == "app/addons/some_thing"
  {
    assert "vendor/addon-Some-Thing" == "vendor" + [NameSeparator] + "addon-Some-Thing";
    assert DefaultAddonDir + [DirSeparator] + "some_thing" == "app/addons/some_thing";
    InstallPathIgnoresVendor(DefaultAddonDir, "vendor", "addon-Some-Thing");
    DirNameExamples();
  }

  /** "vendor/Widget-Core", which carries no marker, is installed in app/addons/widget_core. */
  lemma InstallPathWithoutMarker()
    ensures InstallPath(DefaultAddonDir, "vendor/Widget-Core") == "app/addons/widget_core"
  {
    assert "vendor/Widget-Core" == "vendor" + [NameSeparator] + "Widget-Core";
    assert DefaultAddonDir + [DirSeparator] + "widget_core" == "app/addons/widget_core";
    InstallPathIgnoresVendor(DefaultAddonDir, "vendor", "Widget-Core");
    DirNameExamples();
  }

  /** The intersection test of the update step: one path, cut to the other's
      length, equals the other. It holds exactly when one path is a string
      prefix of the other. */
  function PathsIntersect(initialPath: string, targetPath: string): (intersect: bool)
    ensures intersect <==> targetPath <= initialPath || initialPath <= targetPath
  {
    HeadIsPrefixTest(initialPath, targetPath);
    HeadIsPrefixTest(targetPath, initialPath);
    Head(initialPath, |targetPath|) == targetPath || Head(targetPath, |initialPath|) == initialPath
  }

  /** Every pair of nested directories is caught by the test. */
  lemma NestedPathsIntersect(outer: string, inner: string)
    requires inner == outer || outer + [DirSeparator] <= inner
    ensures PathsIntersect(outer, inner) && PathsIntersect(inner, outer)
  {
    if inner != outer {
      assert inner[..|outer|] == (outer + [DirSeparator])[..|outer|] == outer;
    }
  }

  /** The test is a string comparison, not a directory comparison: two sibling
      directories where one name extends the other also count as intersecting. */
  lemma SiblingPathsIntersect()
    ensures PathsIntersect("app/addons/foo", "app/addons/foobar")
    ensures !("app/addons/foo" + [DirSeparator] <= "app/addons/foobar")
  {
    assert "app/addons/foobar"[..14] == "app/addons/foo";
    assert "app/addons/foobar"[14] != DirSeparator;
  }

  /** The collaborator calls the update step makes for the two derived paths. */
  function UpdatePlan(initial: Package, target: Package, initialPath: string, targetPath: string): (plan: seq<Action>)
    // a rename happens exactly when neither directory lies within the other
    ensures Rename(initialPath, targetPath) in plan <==> !(initialPath <= targetPath) && !(targetPath <= initialPath)
    ensures forall a :: a in plan && a.Rename? ==> a == Rename(initialPath, targetPath)
    // the initial code is removed exactly when the paths differ but overlap
    ensures Remove(initial, initialPath) in plan <==> initialPath != targetPath && (initialPath <= targetPath || targetPath <= initialPath)
    ensures forall a :: a in plan && a.Remove? ==> a == Remove(initial, initialPath)
    // the last call always leaves the target's code at the target path
    ensures |plan| > 0
    ensures plan[|plan| - 1] == Update(initial, target, targetPath) || plan[|plan| - 1] == Download(target, targetPath)
    ensures forall a :: a in plan ==> !a.EnsureDir?
  {
    if targetPath == initialPath then
      [Update(initial, target, targetPath)]
    else if PathsIntersect(initialPath, targetPath) then
      [Remove(initial, initialPath), Download(target, targetPath)]
    else
      [Rename(initialPath, targetPath), Update(initial, target, targetPath)]
  }

  /** The three branches of the update step, call by call. */
  lemma UpdatePlanCases(initial: Package, target: Package, initialPath: string, targetPath: string)
    ensures initialPath == targetPath ==>
      UpdatePlan(initial, target, initialPath, targetPath) == [Update(initial, target, targetPath)]
    ensures initialPath != targetPath && (initialPath <= targetPath || targetPath <= initialPath) ==>
      UpdatePlan(initial, target, initialPath, targetPath) == [Remove(initial, initialPath), Download(target, targetPath)]
    ensures !(initialPath <= targetPath) && !(targetPath <= initialPath) ==>
      UpdatePlan(initial, target, initialPath, targetPath) == [Rename(initialPath, targetPath), Update(initial, target, targetPath)]
  {
  }

  /** No package is listed twice. */
  predicate Distinct(s: seq<Package>) {
    forall i, j :: 0 <= i < j < |s| ==> s[i] != s[j]
  }

  /** Position of the first listing of `p`. */
  function FirstListing(s: seq<Package>, p: Package): (i: nat)
    requires p in s
    ensures i < |s| && s[i] == p
    ensures p !in s[..i]
  {
    if s[0] == p then 0
    else
      var j := FirstListing(s[1..], p);
      assert s[..j + 1] == [s[0]] + s[1..][..j];
      j + 1
  }

  /** What the repository's removal leaves: the list without its first
      occurrence of `p`, in the original order. */
  function RemoveFirst(s: seq<Package>, p: Package): (r: seq<Package>)
    ensures p !in s ==> r == s
    // exactly the first listing of `p` is cut out, and the order is kept
    ensures p in s ==> exists i :: 0 <= i < |s| && s[i] == p && p !in s[..i] && r == s[..i] + s[i + 1..]
    ensures p in s ==> |r| == |s| - 1
    ensures forall x :: x in r ==> x in s
    ensures forall x :: x != p ==> (x in r <==> x in s)
    ensures Distinct(s) ==> Distinct(r) && p !in r
  {
    if p !in s then s
    else
      var i := FirstListing(s, p);
      assert s == s[..i] + [p] + s[i + 1..];
      CutKeepsDistinct(s, i);
      s[..i] + s[i + 1..]
  }

  /** Cutting one position out of a list without duplicates leaves a list
      without duplicates that no longer holds the element cut. */
  lemma CutKeepsDistinct(s: seq<Package>, i: nat)
    requires i < |s|
    ensures Distinct(s) ==> Distinct(s[..i] + s[i + 1..]) && s[i] !in s[..i] + s[i + 1..]
  {
    var r := s[..i] + s[i + 1..];
    if Distinct(s) {
      forall k | 0 <= k < |r| ensures r[k] == s[if k < i then k else k + 1] {
        if k < i { assert r[k] == s[..i][k]; } else { assert r[k] == s[i + 1..][k - i]; }
      }
    }
  }

  /** The host's installed-package repository: the packages it lists, in the
      order they were added. */
  class InstalledRepository {
    var packages: seq<Package>

    constructor (packages: seq<Package>)
      ensures this.packages == packages
    {
      this.packages := packages;
    }

    function HasPackage(p: Package): (listed: bool)
      reads this
      ensures listed <==> p in packages
    {
      p in packages
    }

    /** Appends the package, whether or not it is already listed. */
    method AddPackage(p: Package)
      modifies this
      ensures packages == old(packages) + [p]
    {
      packages := packages + [p];
    }

    /** Drops the first listing of the package, if there is one. */
    method RemovePackage(p: Package)
      modifies this
      ensures packages == RemoveFirst(old(packages), p)
    {
      packages := RemoveFirst(packages, p);
    }
  }

  class AddonInstaller {
    /** The base directory; relative until the first install or update resolves it. */
    var addonDir: string
    /** Every call made to the download manager and the filesystem helper, oldest first. */
    var log: seq<Action>

    constructor ()
      ensures addonDir == DefaultAddonDir && log == []
    {
      addonDir := DefaultAddonDir;
      log := [];
    }

    /** A package is installed when the repository lists it and its install
        path is readable; `readable` is the set of paths the filesystem reports
        readable. */
    function IsInstalled(repo: InstalledRepository, pkg: Package, readable: set<string>): (installed: bool)
      reads this, repo
      requires HasVendor(pkg.name)
      ensures !repo.HasPackage(pkg) ==> !installed
      ensures InstallPath(addonDir, pkg.name) !in readable ==> !installed
      ensures repo.HasPackage(pkg) && InstallPath(addonDir, pkg.name) in readable ==> installed
    {
      repo.HasPackage(pkg) && InstallPath(addonDir, pkg.name) in readable
    }

    /** Makes sure the base directory exists, then replaces it by its resolved
        form `resolved`, which is what the filesystem answers for it. */
    method InitializeAddonDir(resolved: string)
      modifies this
      ensures addonDir == resolved
      ensures log == old(log) + [EnsureDir(old(addonDir))]
    {
      log := log + [EnsureDir(addonDir)];
      addonDir := resolved;
    }

    method InstallCode(pkg: Package)
      requires HasVendor(pkg.name)
      modifies this`log
      ensures log == old(log) + [Download(pkg, InstallPath(addonDir, pkg.name))]
    {
      log := log + [Download(pkg, InstallPath(addonDir, pkg.name))];
    }

    method RemoveCode(pkg: Package)
      requires HasVendor(pkg.name)
      modifies this`log
      ensures log == old(log) + [Remove(pkg, InstallPath(addonDir, pkg.name))]
    {
      log := log + [Remove(pkg, InstallPath(addonDir, pkg.name))];
    }

    method UpdateCode(initial: Package, target: Package)
      requires HasVendor(initial.name) && HasVendor(target.name)
      modifies this`log
      ensures log == old(log) + UpdatePlan(initial, target,
                                           InstallPath(addonDir, initial.name),
                                           InstallPath(addonDir, target.name))
    {
      var initialPath := InstallPath(addonDir, initial.name);
      var targetPath := InstallPath(addonDir, target.name);
      if targetPath != initialPath {
        if Head(initialPath, |targetPath|) == targetPath || Head(targetPath, |initialPath|) == initialPath {
          RemoveCode(initial);
          InstallCode(target);
          return;
        }
        log := log + [Rename(initialPath, targetPath)];
      }
      log := log + [Action.Update(initial, target, targetPath)];
    }

    /** Downloads the package into its install path and registers it unless
        the repository already lists it; `resolved` is the resolved base directory. */
    method Install(repo: InstalledRepository, pkg: Package, resolved: string)
      requires HasVendor(pkg.name)
      modifies this, repo
      ensures addonDir == resolved
      ensures log == old(log) + [EnsureDir(old(addonDir)), Download(pkg, InstallPath(resolved, pkg.name))]
      ensures pkg in old(repo.packages) ==> repo.packages == old(repo.packages)
      ensures pkg !in old(repo.packages) ==> repo.packages == old(repo.packages) + [pkg]
      ensures pkg in repo.packages
      ensures Distinct(old(repo.packages)) ==> Distinct(repo.packages)
    {
      InitializeAddonDir(resolved);
      InstallCode(pkg);
      if !repo.HasPackage(pkg) {
        repo.AddPackage(pkg);
      }
    }

    /** Replaces `initial` by `target`; fails, changing nothing, when `initial`
        is not installed. */
    method Update(repo: InstalledRepository, initial: Package, target: Package, resolved: string) returns (outcome: Outcome)
      requires HasVendor(initial.name) && HasVendor(target.name)
      modifies this, repo
      ensures initial !in old(repo.packages) ==>
        outcome == Fail(InvalidArgument(initial)) && unchanged(this) && unchanged(repo)
      ensures initial in old(repo.packages) ==>
        && outcome == Pass
        && addonDir == resolved
        && log == old(log) + [EnsureDir(old(addonDir))]
                           + UpdatePlan(initial, target,
                                        InstallPath(resolved, initial.name),
                                        InstallPath(resolved, target.name))
        && var kept := RemoveFirst(old(repo.packages), initial);
           repo.packages == if target in kept then kept else kept + [target]
      // on a repository without duplicates: target replaces initial, no other entry changes
      ensures initial in old(repo.packages) && Distinct(old(repo.packages)) ==>
        && Distinct(repo.packages)
        && forall x :: x in repo.packages <==> x == target || (x in old(repo.packages) && x != initial)
    {
      if !repo.HasPackage(initial) {
        return Fail(InvalidArgument(initial));
      }
      InitializeAddonDir(resolved);
      UpdateCode(initial, target);
      repo.RemovePackage(initial);
      if !repo.HasPackage(target) {
        repo.AddPackage(target);
      }
      outcome := Pass;
    }

    /** Removes the package's code and unregisters it; fails, changing
        nothing, when it is not installed. */
    method Uninstall(repo: InstalledRepository, pkg: Package) returns (outcome: Outcome)
      requires HasVendor(pkg.name)
      modifies this`log, repo
      ensures pkg !in old(repo.packages) ==>
        outcome == Fail(InvalidArgument(pkg)) && log == old(log) && unchanged(repo)
      ensures pkg in old(repo.packages) ==>
        && outcome == Pass
        && log == old(log) + [Remove(pkg, InstallPath(addonDir, pkg.name))]
        && repo.packages == RemoveFirst(old(repo.packages), pkg)
      // on a repository without duplicates: exactly `pkg` is gone
      ensures Distinct(old(repo.packages)) ==>
        && Distinct(repo.packages)
        && forall x :: x in repo.packages <==> x in old(repo.packages) && x != pkg
    {
      if !repo.HasPackage(pkg) {
        return Fail(InvalidArgument(pkg));
      }
      RemoveCode(pkg);
      repo.RemovePackage(pkg);
      outcome := Pass;
    }
  }
}
