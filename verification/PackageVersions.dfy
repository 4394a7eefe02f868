/**
 app/models/package.rb: which installations are refused, and what becomes of the version of a package over any
 sequence of installations, reinstallations and uninstallations, failing ones included.
 */
module PackageVersions {
  import opened Prelude
  import opened Texts
  import opened PackageFiles
  import opened PackageManager

  // ----- Refusals -----

  /**
   An installation is refused exactly for the version in the table and for older ones, each with its own error, and
   then nothing at all changes; any other error is about a location.
   */
  lemma RefusedExactly(s: System, p: Package)
    ensures var (s', error) := Install(s, p, false);
      var there := p.name in s.records;
      && (error == Some(AlreadyInstalled) <==> there && s.records[p.name].package.version == p.version)
      && (error == Some(NewerInstalled) <==> there && s.records[p.name].package.version > p.version)
      && (there && s.records[p.name].package.version >= p.version ==> s' == s)
      && (error.Some? && !(there && s.records[p.name].package.version >= p.version) ==> error.value.NotAllowed?)
  {
    if !(p.name in s.records && s.records[p.name].package.version >= p.version) {
      InstallOfNewerExactly(s, p);
    }
  }

  /** A location is refused exactly if it has two dots in a row in it, as such or encoded. */
  lemma AllowedExactly(location: Path)
    ensures !Allowed(location)
            <==> exists before, after :: location == before + ".." + after || location == before + "%2e%2e" + after
  {
    forall before, part: string, after | location == before + part + after
      ensures Includes(location, part)
    {
      assert part <= location[|before|..];
    }
    if Includes(location, "..") {
      SplitsAt(location, "..");
    }
    if Includes(location, "%2e%2e") {
      SplitsAt(location, "%2e%2e");
    }
  }

  lemma SplitsAt(s: string, part: string)
    requires Includes(s, part)
    ensures exists before, after :: s == before + part + after
  {
    var i :| 0 <= i <= |s| && part <= s[i..];
    assert s == s[..i] + part + s[i + |part|..];
  }

  /** Only an installed version can be uninstalled and only an installed package reinstalled; else nothing changes. */
  lemma NoSuchPackageExactly(s: System, name: string, version: int, keepRecord: bool)
    ensures Uninstall(s, name, version, keepRecord).Err?
            <==> name !in s.records || s.records[name].package.version != version
    ensures Uninstall(s, name, version, keepRecord).Ok? ==>
      Uninstall(s, name, version, keepRecord).value
      == System(DeletedAll(s.tree, s.records[name].package.files),
                map n | n in s.records && (keepRecord || n != name) :: s.records[n])
    ensures name !in s.records ==> Reinstall(s, name) == (s, Some(NoSuchPackage))
    ensures name in s.records && s.records[name].package.name == name ==>
      Reinstall(s, name).1 != Some(NoSuchPackage) && Reinstall(s, name).1 != Some(NoRecord)
  {
    if name in s.records {
      assert keepRecord ==> s.records == map n | n in s.records && (keepRecord || n != name) :: s.records[n];
      assert s.records - {name} == map n | n in s.records && n != name :: s.records[n];
    }
  }

  /**
   Installing over what is there, whatever its version: the old files go, the new ones are written up to a location that
   is refused, and in the table at most the status changes, and only if all went well. Without a record it ends in the
   nil error, with the files written.
   */
  lemma InstallOverExactly(s: System, p: Package)
    ensures var (s', error) := Install(s, p, true);
      var there := p.name in s.records;
      var cleared := if there then DeletedAll(s.tree, s.records[p.name].package.files) else s.tree;
      && (error == None <==> there && AllAllowed(p.files))
      && (error == Some(NoRecord) <==> !there && AllAllowed(p.files))
      && (error.Some? && error != Some(NoRecord) ==>
           exists n :: 0 <= n < |p.files| && error == Some(NotAllowed(p.files[n].location))
                       && !Allowed(p.files[n].location) && AllAllowed(p.files[..n])
                       && s'.tree == WrittenAll(cleared, p.files[..n]))
      && (AllAllowed(p.files) ==> s'.tree == WrittenAll(cleared, p.files))
      && s'.records.Keys == s.records.Keys
      && forall n :: n in s.records ==>
           s'.records[n] == if n == p.name && error == None then Record(s.records[n].package, Installed)
                            else s.records[n]
  {
    var n := AllowedPrefix(p.files);
    if AllAllowed(p.files) {
      assert n == |p.files| && p.files[..n] == p.files;
    } else {
      var i :| 0 <= i < |p.files| && !Allowed(p.files[i].location);
      assert n <= i && AllAllowed(p.files[..n]);
    }
  }

  // ----- Histories -----

  /** What somebody may ask for; any of it may fail. */
  datatype Request =
    | ToInstall(package: Package)
    | ToReinstall(name: string)
    | ToUninstall(name: string, version: int)

  function Served(s: System, r: Request): System {
    match r
    case ToInstall(p) => Install(s, p, false).0
    case ToReinstall(name) => Reinstall(s, name).0
    case ToUninstall(name, version) =>
      match Uninstall(s, name, version, false) case Ok(s') => s' case Err(_) => s
  }

  function ServedAll(s: System, rs: seq<Request>): System {
    if rs == [] then s else Served(ServedAll(s, rs[..|rs| - 1]), rs[|rs| - 1])
  }

  function VersionIn(s: System, name: string): Option<int> {
    if name in s.records then Some(s.records[name].package.version) else None
  }

  /** A step that leaves the name in the table keeps its version, or raises it to that of a package to install. */
  lemma OneRequest(s: System, r: Request, name: string)
    requires VersionIn(s, name).Some? && VersionIn(Served(s, r), name).Some?
    ensures VersionIn(Served(s, r), name) == VersionIn(s, name)
      || (r.ToInstall? && r.package.name == name && r.package.version > VersionIn(s, name).value
          && VersionIn(Served(s, r), name) == Some(r.package.version))
  {
    match r
    case ToInstall(p) =>
      RefusedExactly(s, p);
      if !(p.name in s.records && s.records[p.name].package.version >= p.version) { InstallOfNewerExactly(s, p); }
    case ToReinstall(n) =>
      ReinstallKeepsVersions(s, n, name);
    case ToUninstall(n, version) =>
  }

  lemma ReinstallKeepsVersions(s: System, n: string, name: string)
    ensures VersionIn(Reinstall(s, n).0, name) == VersionIn(s, name)
  {
  }

  /** While a name stays in the table, its version never falls, whatever is asked for and whatever fails. */
  lemma {:induction false} VersionsNeverFall(s: System, rs: seq<Request>, name: string, j: nat)
    requires j <= |rs|
    requires forall k :: j <= k <= |rs| ==> VersionIn(ServedAll(s, rs[..k]), name).Some?
    ensures VersionIn(ServedAll(s, rs[..j]), name).Some? && VersionIn(ServedAll(s, rs), name).Some?
    ensures VersionIn(ServedAll(s, rs[..j]), name).value <= VersionIn(ServedAll(s, rs), name).value
  {
    var n := |rs| - 1;
    assert rs[..|rs|] == rs;
    if j < |rs| {
      assert rs[..n][..j] == rs[..j];
      forall k | j <= k <= n
        ensures VersionIn(ServedAll(s, rs[..n][..k]), name).Some?
      {
        assert rs[..n][..k] == rs[..k];
      }
      VersionsNeverFall(s, rs[..n], name, j);
      OneRequest(ServedAll(s, rs[..n]), rs[n], name);
    }
  }

  /**
   A name that is in the table before and after, at a lower version after, was out of the table in between: the version
   was uninstalled, or an upgrade with a refused location has removed it.
   */
  lemma LowerVersionOnlyAfterRemoval(s: System, rs: seq<Request>, name: string) returns (k: nat)
    requires VersionIn(s, name).Some? && VersionIn(ServedAll(s, rs), name).Some?
    requires VersionIn(ServedAll(s, rs), name).value < VersionIn(s, name).value
    ensures k < |rs|
    ensures VersionIn(ServedAll(s, rs[..k]), name).Some? && VersionIn(ServedAll(s, rs[..k + 1]), name).None?
    ensures rs[k] == ToUninstall(name, VersionIn(ServedAll(s, rs[..k]), name).value)
      || (rs[k].ToInstall? && rs[k].package.name == name && !AllAllowed(rs[k].package.files))
  {
    k := FirstRemoval(s, rs, name);
    assert rs[..k + 1][..k] == rs[..k] && rs[..k + 1][k] == rs[k];
    RemovedBy(ServedAll(s, rs[..k]), rs[k], name);
  }

  lemma FirstRemoval(s: System, rs: seq<Request>, name: string) returns (k: nat)
    requires VersionIn(s, name).Some? && VersionIn(ServedAll(s, rs), name).Some?
    requires VersionIn(ServedAll(s, rs), name).value < VersionIn(s, name).value
    ensures k < |rs|
    ensures VersionIn(ServedAll(s, rs[..k]), name).Some? && VersionIn(ServedAll(s, rs[..k + 1]), name).None?
  {
    assert rs[..0] == [] && rs[..|rs|] == rs;
    k := 0;
    while k < |rs| && VersionIn(ServedAll(s, rs[..k + 1]), name).Some?
      invariant k <= |rs| && forall i :: 0 <= i <= k ==> VersionIn(ServedAll(s, rs[..i]), name).Some?
    {
      k := k + 1;
    }
    if k == |rs| {
      VersionsNeverFall(s, rs, name, 0);
    }
  }

  lemma RemovedBy(s: System, r: Request, name: string)
    requires VersionIn(s, name).Some? && VersionIn(Served(s, r), name).None?
    ensures r == ToUninstall(name, VersionIn(s, name).value)
      || (r.ToInstall? && r.package.name == name && !AllAllowed(r.package.files))
  {
    match r
    case ToInstall(p) =>
      RefusedExactly(s, p);
      if !(p.name in s.records && s.records[p.name].package.version >= p.version) { InstallOfNewerExactly(s, p); }
    case ToReinstall(n) =>
      ReinstallKeepsVersions(s, n, name);
    case ToUninstall(n, version) =>
  }
}
