/** app/models/package.rb: install, upgrade, reinstall, uninstall and verify over the package table and the files. */
module PackageManager {
  import opened Prelude
  import opened Texts
  import opened PackageFiles
  import PackageHealing

  /** A zpm package; `version` stands for its place in the order of Gem::Version. */
  datatype Package = Package(name: string, version: int, files: seq<File>)

  datatype Status = Uninstalled | Installed

  /** A row of the package table with the zpm that was stored for it. There is at most one for a name. */
  datatype Record = Record(package: Package, status: Status)

  datatype System = System(tree: Tree, records: map<string, Record>)

  /** `NoRecord` is the nil error of a reinstallation without a row (line 292). */
  datatype Error = AlreadyInstalled | NewerInstalled | NotAllowed(location: Path) | NoSuchPackage | NoRecord

  datatype Issue = Missing | Changed

  /** `allowed_file_path?` */
  predicate Allowed(location: Path) {
    !Includes(location, "..") && !Includes(location, "%2e%2e")
  }

  /** How many files are written before one is refused. */
  function AllowedPrefix(files: seq<File>): (n: nat)
    ensures n <= |files|
    ensures forall i :: 0 <= i < n ==> Allowed(files[i].location)
    ensures n < |files| ==> !Allowed(files[n].location)
  {
    if files == [] || !Allowed(files[0].location) then 0 else 1 + AllowedPrefix(files[1..])
  }

  function Uninstall(s: System, name: string, version: int, keepRecord: bool): Result<System, Error> {
    if name !in s.records || s.records[name].package.version != version then Err(NoSuchPackage)
    else
      var tree := DeletedAll(s.tree, s.records[name].package.files);
      Ok(System(tree, if keepRecord then s.records else s.records - {name}))
  }

  /** The part of `install` inside the database transaction: a refused file undoes the record, not the files. */
  function WriteAndRecord(s: System, p: Package, reinstall: bool): (r: (System, Option<Error>)) {
    var n := AllowedPrefix(p.files);
    var tree := WrittenAll(s.tree, p.files[..n]);
    if n < |p.files| then (s.(tree := tree), Some(NotAllowed(p.files[n].location)))
    else if reinstall then
      if p.name in s.records then
        (System(tree, s.records[p.name := s.records[p.name].(status := Installed)]), None)
      else (s.(tree := tree), Some(NoRecord))
    else (System(tree, s.records[p.name := Record(p, Installed)]), None)
  }

  function Refusal(s: System, p: Package, reinstall: bool): Option<Error> {
    if p.name !in s.records || reinstall then None
    else if s.records[p.name].package.version == p.version then Some(AlreadyInstalled)
    else if s.records[p.name].package.version > p.version then Some(NewerInstalled)
    else None
  }

  function Install(s: System, p: Package, reinstall: bool): (r: (System, Option<Error>)) {
    if Refusal(s, p, reinstall).Some? then (s, Refusal(s, p, reinstall))
    else if p.name in s.records then
      match Uninstall(s, p.name, s.records[p.name].package.version, reinstall)
      case Ok(s') => WriteAndRecord(s', p, reinstall)
      case Err(e) => (s, Some(e))
    else WriteAndRecord(s, p, reinstall)
  }

  function Reinstall(s: System, name: string): (r: (System, Option<Error>)) {
    if name !in s.records then (s, Some(NoSuchPackage))
    else Install(s, s.records[name].package, true)
  }

  /** The Package class with its table; the files are changed in place. */
  class Packages {
    const tree: FileTree
    var records: map<string, Record>

    constructor (tree: FileTree)
      ensures this.tree == tree && records == map[]
    {
      this.tree := tree;
      records := map[];
    }

    function View(): System
      reads this, tree
    {
      System(tree.files, records)
    }

    method UninstallPackage(name: string, version: int, reinstall: bool) returns (error: Option<Error>)
      modifies this, tree
      ensures match Uninstall(old(View()), name, version, reinstall)
        case Ok(s) => error == None && View() == s
        case Err(e) => error == Some(e) && View() == old(View())
    {
      if name !in records || records[name].package.version != version {
        return Some(NoSuchPackage);
      }
      var files := records[name].package.files;
      for i := 0 to |files|
        invariant tree.files == DeletedAll(old(tree.files), files[..i]) && records == old(records)
      {
        tree.DeleteFile(files[i].location);
        assert files[..i + 1][..i] == files[..i];
      }
      assert files[..|files|] == files;
      if !reinstall {
        records := records - {name};
      }
      return None;
    }

    method InstallPackage(p: Package, reinstall: bool) returns (error: Option<Error>)
      modifies this, tree
      ensures (View(), error) == Install(old(View()), p, reinstall)
    {
      if p.name in records {
        var installed := records[p.name].package;
        if !reinstall {
          if installed.version == p.version {
            return Some(AlreadyInstalled);
          }
          if installed.version > p.version {
            return Some(NewerInstalled);
          }
        }
        error := UninstallPackage(p.name, installed.version, reinstall);
      }
      error := WriteFiles(p, reinstall);
    }

    method WriteFiles(p: Package, reinstall: bool) returns (error: Option<Error>)
      modifies this, tree
      ensures (View(), error) == WriteAndRecord(old(View()), p, reinstall)
    {
      for i := 0 to |p.files|
        invariant i <= AllowedPrefix(p.files)
        invariant tree.files == WrittenAll(old(tree.files), p.files[..i]) && records == old(records)
      {
        var file := p.files[i];
        if !Allowed(file.location) {
          return Some(NotAllowed(file.location));
        }
        tree.WriteFile(file.location, file.content);
        assert p.files[..i + 1][..i] == p.files[..i];
      }
      if !reinstall {
        records := records[p.name := Record(p, Installed)];
      } else if p.name in records {
        records := records[p.name := records[p.name].(status := Installed)];
      } else {
        return Some(NoRecord);
      }
      return None;
    }

    method ReinstallPackage(name: string) returns (error: Option<Error>)
      modifies this, tree
      ensures (View(), error) == Reinstall(old(View()), name)
    {
      if name !in records {
        return Some(NoSuchPackage);
      }
      error := InstallPackage(records[name].package, true);
    }

    /** `verify`: nil if every file is there with the content that was shipped, the issues otherwise. */
    method Verify(name: string) returns (issues: Option<map<Path, Issue>>)
      requires name in records
      ensures issues == None <==> Verified(tree.files, records[name].package.files)
      ensures issues.Some? ==> forall p :: p in issues.value <==>
                (exists f :: f in records[name].package.files && f.location == p && !ShipsWhatIsThere(tree.files, f))
      ensures issues.Some? ==> forall p :: p in issues.value ==>
                issues.value[p] == if p in tree.files then Changed else Missing
    {
      var files := records[name].package.files;
      var found: map<Path, Issue> := map[];
      for i := 0 to |files|
        invariant forall p :: p in found <==>
                    (exists k :: 0 <= k < i && files[k].location == p && !ShipsWhatIsThere(tree.files, files[k]))
        invariant forall p :: p in found ==> found[p] == if p in tree.files then Changed else Missing
      {
        var file := files[i];
        if file.location !in tree.files {
          found := found[file.location := Missing];
        } else if tree.files[file.location] != file.content {
          found := found[file.location := Changed];
        }
      }
      if found == map[] {
        forall k | 0 <= k < |files|
          ensures ShipsWhatIsThere(tree.files, files[k])
        {
          assert files[k].location !in found;
        }
        return None;
      }
      var bad :| bad in found;
      forall p
        ensures p in found <==>
                (exists f :: f in files && f.location == p && !ShipsWhatIsThere(tree.files, f))
      {
        if p in found {
          var k :| 0 <= k < |files| && files[k].location == p && !ShipsWhatIsThere(tree.files, files[k]);
          assert files[k] in files;
        }
      }
      return Some(found);
    }
  }

  // ----- Histories of one package -----

  predicate AllAllowed(files: seq<File>) {
    forall i :: 0 <= i < |files| ==> Allowed(files[i].location)
  }

  /** Versions of one package, each newer than the one before, with files that can be installed. */
  predicate UpgradePath(name: string, packages: seq<Package>) {
    && (forall k :: 0 <= k < |packages| ==> packages[k].name == name && AllAllowed(packages[k].files))
    && (forall j, k :: 0 <= j < k < |packages| ==> packages[j].version < packages[k].version)
  }

  function FilesOf(packages: seq<Package>): (fs: seq<seq<File>>)
    ensures |fs| == |packages|
  {
    seq(|packages|, i requires 0 <= i < |packages| => packages[i].files)
  }

  /** Installing the packages one after the other, stopping at the first error. */
  function InstallEach(s: System, packages: seq<Package>): (r: (System, Option<Error>)) {
    if packages == [] then (s, None)
    else
      var n := |packages| - 1;
      var (before, error) := InstallEach(s, packages[..n]);
      if error.Some? then (before, error) else Install(before, packages[n], false)
  }

  /**
   A package that is new, or newer than the installed one, is installed exactly if all its locations are allowed.
   Otherwise the old version is gone all the same, from the table too, and the new version's files before the refused
   one stay behind without a record.
   */
  lemma InstallOfNewerExactly(s: System, p: Package)
    requires p.name in s.records ==> s.records[p.name].package.version < p.version
    ensures var (s', error) := Install(s, p, false);
      var cleared := DeletedAll(s.tree, if p.name in s.records then s.records[p.name].package.files else []);
      && (error == None <==> AllAllowed(p.files))
      && (AllAllowed(p.files) ==>
           s' == System(WrittenAll(cleared, p.files), s.records[p.name := Record(p, Installed)]))
      && (!AllAllowed(p.files) ==>
           s' == System(WrittenAll(cleared, p.files[..AllowedPrefix(p.files)]), s.records - {p.name})
           && error == Some(NotAllowed(p.files[AllowedPrefix(p.files)].location)))
  {
    if AllAllowed(p.files) {
      assert AllowedPrefix(p.files) == |p.files| && p.files[..|p.files|] == p.files;
      if p.name in s.records {
        RecordReplacedAfterRemoval(s.records, p.name, Record(p, Installed));
      }
    } else {
      var i :| 0 <= i < |p.files| && !Allowed(p.files[i].location);
      assert AllowedPrefix(p.files) <= i;
      if p.name !in s.records { assert s.records - {p.name} == s.records; }
    }
  }

  lemma RecordReplacedAfterRemoval(records: map<string, Record>, name: string, now: Record)
    ensures (records - {name})[name := now] == records[name := now]
  {
  }

  /** The system after all upgrades. */
  function AfterUpgrades(s: System, name: string, packages: seq<Package>): System
    requires packages != []
  {
    System(Upgraded(s.tree, FilesOf(packages)), s.records[name := Record(packages[|packages| - 1], Installed)])
  }

  lemma {:induction false} UpgradesSucceed(s: System, name: string, packages: seq<Package>)
    requires UpgradePath(name, packages) && packages != [] && name !in s.records
    ensures InstallEach(s, packages) == (AfterUpgrades(s, name, packages), None)
  {
    var n := |packages| - 1;
    if n == 0 {
      assert packages[..0] == [];
      FirstInstall(s, name, packages);
    } else {
      UpgradesSucceed(s, name, packages[..n]);
      OneMoreUpgrade(s, name, packages);
    }
  }

  lemma FirstInstall(s: System, name: string, packages: seq<Package>)
    requires UpgradePath(name, packages) && |packages| == 1 && name !in s.records
    ensures Install(s, packages[0], false) == (AfterUpgrades(s, name, packages), None)
  {
    UpgradedStep(s.tree, packages);
    InstallOfNewerExactly(s, packages[0]);
  }

  lemma RecordReplaced(records: map<string, Record>, name: string, was: Record, now: Record)
    ensures records[name := was][name := now] == records[name := now]
  {
  }

  lemma OneMoreUpgrade(s: System, name: string, packages: seq<Package>)
    requires UpgradePath(name, packages) && |packages| > 1 && name !in s.records
    ensures var n := |packages| - 1;
      Install(AfterUpgrades(s, name, packages[..n]), packages[n], false) == (AfterUpgrades(s, name, packages), None)
  {
    var n := |packages| - 1;
    var previous, last := packages[n - 1], packages[n];
    assert packages[..n][n - 1] == previous;
    UpgradedStep(s.tree, packages);
    RecordReplaced(s.records, name, Record(previous, Installed), Record(last, Installed));
    var before := AfterUpgrades(s, name, packages[..n]);
    assert before.records[name].package == previous && previous.version < last.version;
    InstallOfNewerExactly(before, last);
  }

  lemma UpgradedStep(t: Tree, packages: seq<Package>)
    requires packages != []
    ensures var n := |packages| - 1;
      Upgraded(t, FilesOf(packages))
      == WrittenAll(if n == 0 then t else DeletedAll(Upgraded(t, FilesOf(packages[..n])), packages[n - 1].files),
                    packages[n].files)
  {
    var n := |packages| - 1;
    assert FilesOf(packages)[..n] == FilesOf(packages[..n]);
  }

  /**
   A package is installed, upgraded any number of times and uninstalled. The table is as before, and so are the
   files, except those that some version shipped just as they were.
   */
  lemma UpgradeChainUndo(s: System, name: string, packages: seq<Package>)
    requires UpgradePath(name, packages) && packages != [] && name !in s.records
    requires forall k :: 0 <= k < |packages| ==> NoClash(packages[k].files) && NoBackups(s.tree, packages[k].files)
    ensures var (installed, error) := InstallEach(s, packages);
      error == None
      && Uninstall(installed, name, packages[|packages| - 1].version, false)
         == Ok(System(s.tree - ShadowedByAny(s.tree, FilesOf(packages)), s.records))
  {
    var n := |packages| - 1;
    UpgradesSucceed(s, name, packages);
    UpgradesRemoveShadowed(s.tree, FilesOf(packages));
    assert s.records[name := Record(packages[n], Installed)] - {name} == s.records;
  }

  /** It gives all files back exactly when no version shipped a file just as it was. */
  lemma UpgradeChainUndoExact(s: System, name: string, packages: seq<Package>)
    requires UpgradePath(name, packages) && packages != [] && name !in s.records
    requires forall k :: 0 <= k < |packages| ==> NoClash(packages[k].files) && NoBackups(s.tree, packages[k].files)
    ensures Uninstall(InstallEach(s, packages).0, name, packages[|packages| - 1].version, false) == Ok(s)
            <==> forall k, i :: 0 <= k < |packages| && 0 <= i < |packages[k].files|
                   ==> !ShipsWhatIsThere(s.tree, packages[k].files[i])
  {
    UpgradeChainUndo(s, name, packages);
    var fs := FilesOf(packages);
    var gone := ShadowedByAny(s.tree, fs);
    if s.tree - gone == s.tree {
      forall k, i | 0 <= k < |packages| && 0 <= i < |packages[k].files|
        ensures !ShipsWhatIsThere(s.tree, packages[k].files[i])
      {
        assert fs[k] == packages[k].files;
        assert fs[k][i].location !in gone || fs[k][i].location !in s.tree;
      }
    }
    if forall k, i :: 0 <= k < |packages| && 0 <= i < |packages[k].files|
         ==> !ShipsWhatIsThere(s.tree, packages[k].files[i]) {
      assert gone == {};
      assert s.tree - gone == s.tree;
    }
  }

  /** `reinstall` of an installed package rewrites its files and leaves the table alone. */
  lemma ReinstallEffect(s: System, name: string)
    requires name in s.records && s.records[name].package.name == name
    requires AllAllowed(s.records[name].package.files) && s.records[name].status == Installed
    ensures Reinstall(s, name) == (s.(tree := Reinstalled(s.tree, s.records[name].package.files)), None)
  {
    var files := s.records[name].package.files;
    assert AllowedPrefix(files) == |files| && files[..|files|] == files;
    assert s.records[name := s.records[name]] == s.records;
  }

  /** Whatever has happened to the files, `verify` finds nothing after a reinstallation. */
  lemma ReinstallHeals(s: System, name: string)
    requires name in s.records && s.records[name].package.name == name
    requires AllAllowed(s.records[name].package.files) && s.records[name].status == Installed
    requires PackageHealing.Consistent(s.records[name].package.files)
    requires forall i, j :: !PackageHealing.Overwrites(s.records[name].package.files, i, j)
    ensures Verified(Reinstall(s, name).0.tree, s.records[name].package.files)
  {
    ReinstallEffect(s, name);
    PackageHealing.WritingVerifies(DeletedAll(s.tree, s.records[name].package.files), s.records[name].package.files);
  }

  /** Right after a fresh installation a reinstallation changes nothing at all. */
  lemma ReinstallIsNeutralAfterInstall(s: System, p: Package)
    requires p.name !in s.records && AllAllowed(p.files) && NoClash(p.files) && NoBackups(s.tree, p.files)
    ensures var (s', error) := Install(s, p, false);
      error == None && Reinstall(s', p.name) == (s', None)
  {
    assert AllowedPrefix(p.files) == |p.files| && p.files[..|p.files|] == p.files;
    ReinstallEffect(Install(s, p, false).0, p.name);
    ReinstallAfterInstall(s.tree, p.files);
  }
}
