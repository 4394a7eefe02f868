/**
 app/models/package.rb, the files of a package: writing one backs up what was there as `.save`, deleting one
 restores the backup. Permissions and directories are not part of this model.
 */
module PackageFiles {
  import opened Prelude

  type Path = string
  type Content = string

  datatype File = File(location: Path, content: Content)

  /** The files below the application's root. */
  type Tree = map<Path, Content>

  function Backup(p: Path): Path {
    p + ".save"
  }

  lemma BackupIsInjective(p: Path, q: Path)
    ensures Backup(p) == Backup(q) ==> p == q
    ensures Backup(p) != p
  {
    if Backup(p) == Backup(q) {
      assert |p| == |q|;
      assert p == Backup(p)[..|p|] == Backup(q)[..|q|] == q;
    }
    assert |Backup(p)| > |p|;
  }

  /** `_write_file` */
  function Written(t: Tree, f: File): Tree {
    if f.location in t && t[f.location] == f.content then t
    else if f.location in t then t[Backup(f.location) := t[f.location]][f.location := f.content]
    else t[f.location := f.content]
  }

  /** `_delete_file` */
  function Deleted(t: Tree, p: Path): Tree {
    if Backup(p) in t then (t - {Backup(p)})[p := t[Backup(p)]] else t - {p}
  }

  function WrittenAll(t: Tree, files: seq<File>): Tree {
    if files == [] then t
    else Written(WrittenAll(t, files[..|files| - 1]), files[|files| - 1])
  }

  function DeletedAll(t: Tree, files: seq<File>): Tree {
    if files == [] then t
    else Deleted(DeletedAll(t, files[..|files| - 1]), files[|files| - 1].location)
  }

  /** The file tree, changed in place. */
  class FileTree {
    var files: Tree

    constructor (files: Tree)
      ensures this.files == files
    {
      this.files := files;
    }

    /** `File.rename`: silently replaces what is at the target. */
    method Rename(source: Path, target: Path)
      requires source in files && source != target
      modifies this
      ensures files == old(files[target := files[source]] - {source})
    {
      var content := files[source];
      files := files - {source};
      files := files[target := content];
    }

    method WriteFile(file: Path, data: Content)
      modifies this
      ensures files == Written(old(files), File(file, data))
    {
      if file in files {
        if files[file] == data {
          return;
        }
        BackupIsInjective(file, file);
        Rename(file, Backup(file));
      }
      files := files[file := data];
    }

    method DeleteFile(file: Path)
      modifies this
      ensures files == Deleted(old(files), file)
    {
      BackupIsInjective(file, file);
      if file in files {
        files := files - {file};
      }
      if Backup(file) in files {
        Rename(Backup(file), file);
      }
    }
  }

  // ----- What a whole package does to the tree -----

  predicate Distinct(files: seq<File>) {
    forall i, j :: 0 <= i < j < |files| ==> files[i].location != files[j].location
  }

  /** No two files share a location, and none is where another one's backup goes. */
  predicate NoClash(files: seq<File>) {
    Distinct(files)
    && forall i, j :: 0 <= i < |files| && 0 <= j < |files| ==> files[i].location != Backup(files[j].location)
  }

  /** Neither a location nor a backup of these files. */
  predicate Untouched(p: Path, files: seq<File>) {
    forall i :: 0 <= i < |files| ==> p != files[i].location && p != Backup(files[i].location)
  }

  function BackupAfter(t: Tree, f: File): Option<Content> {
    if f.location in t && t[f.location] != f.content then Some(t[f.location])
    else Lookup(t, Backup(f.location))
  }

  ghost predicate WritesAll(t: Tree, t': Tree, files: seq<File>) {
    && (forall i :: 0 <= i < |files| ==> Lookup(t', files[i].location) == Some(files[i].content))
    && (forall i :: 0 <= i < |files| ==> Lookup(t', Backup(files[i].location)) == BackupAfter(t, files[i]))
    && (forall p :: Untouched(p, files) ==> Lookup(t', p) == Lookup(t, p))
  }

  ghost predicate DeletesAll(t: Tree, t': Tree, files: seq<File>) {
    && (forall i :: 0 <= i < |files| ==> Lookup(t', files[i].location) == Lookup(t, Backup(files[i].location)))
    && (forall i :: 0 <= i < |files| ==> Lookup(t', Backup(files[i].location)) == None)
    && (forall p :: Untouched(p, files) ==> Lookup(t', p) == Lookup(t, p))
  }

  lemma FrontOf(files: seq<File>)
    requires files != [] && NoClash(files)
    ensures var front, last := files[..|files| - 1], files[|files| - 1];
      NoClash(front) && Untouched(last.location, front) && Untouched(Backup(last.location), front)
      && forall p :: Untouched(p, files) <==> Untouched(p, front) && p != last.location && p != Backup(last.location)
  {
    var n := |files| - 1;
    var front, last := files[..n], files[n];
    forall i | 0 <= i < n
      ensures Backup(last.location) != Backup(front[i].location)
    {
      BackupIsInjective(last.location, front[i].location);
    }
    forall p | Untouched(p, front) && p != last.location && p != Backup(last.location)
      ensures Untouched(p, files)
    {
      forall i | 0 <= i < |files|
        ensures p != files[i].location && p != Backup(files[i].location)
      {
        if i < n { assert files[i] == front[i]; }
      }
    }
  }

  lemma {:induction false} InstallEffect(t: Tree, files: seq<File>)
    requires NoClash(files)
    ensures WritesAll(t, WrittenAll(t, files), files)
    ensures forall i :: 0 <= i < |files| ==>
              Lookup(WrittenAll(t, files), files[i].location + ".save") == BackupAfter(t, files[i])
  {
    assert forall i :: 0 <= i < |files| ==> files[i].location + ".save" == Backup(files[i].location);
    if files != [] {
      var front, last := files[..|files| - 1], files[|files| - 1];
      FrontOf(files);
      InstallEffect(t, front);
      WriteOneMore(t, WrittenAll(t, front), front, last, files);
    }
  }

  lemma WriteOneMore(t: Tree, t1: Tree, front: seq<File>, last: File, files: seq<File>)
    requires files == front + [last] && NoClash(files) && WritesAll(t, t1, front)
    requires Untouched(last.location, front) && Untouched(Backup(last.location), front)
    requires forall p :: Untouched(p, files) ==> Untouched(p, front)
    ensures WritesAll(t, Written(t1, last), files)
  {
    var t2 := Written(t1, last);
    BackupIsInjective(last.location, last.location);
    forall i | 0 <= i < |files|
      ensures Lookup(t2, files[i].location) == Some(files[i].content)
      ensures Lookup(t2, Backup(files[i].location)) == BackupAfter(t, files[i])
    {
      if i < |front| { assert files[i] == front[i]; }
    }
    forall p | Untouched(p, files)
      ensures Lookup(t2, p) == Lookup(t, p)
    {
      assert files[|front|] == last;
    }
  }

  lemma {:induction false} UninstallEffect(t: Tree, files: seq<File>)
    requires NoClash(files)
    ensures DeletesAll(t, DeletedAll(t, files), files)
  {
    if files != [] {
      var front, last := files[..|files| - 1], files[|files| - 1];
      FrontOf(files);
      UninstallEffect(t, front);
      DeleteOneMore(t, DeletedAll(t, front), front, last, files);
    }
  }

  lemma DeleteOneMore(t: Tree, t1: Tree, front: seq<File>, last: File, files: seq<File>)
    requires files == front + [last] && NoClash(files) && DeletesAll(t, t1, front)
    requires Untouched(last.location, front) && Untouched(Backup(last.location), front)
    requires forall p :: Untouched(p, files) ==> Untouched(p, front)
    ensures DeletesAll(t, Deleted(t1, last.location), files)
  {
    var t2 := Deleted(t1, last.location);
    BackupIsInjective(last.location, last.location);
    forall i | 0 <= i < |files|
      ensures Lookup(t2, files[i].location) == Lookup(t, Backup(files[i].location))
      ensures Lookup(t2, Backup(files[i].location)) == None
    {
      if i < |front| { assert files[i] == front[i]; }
    }
    forall p | Untouched(p, files)
      ensures Lookup(t2, p) == Lookup(t, p)
    {
      assert files[|front|] == last;
    }
  }

  // ----- Install, then uninstall -----

  function Undone(t: Tree, files: seq<File>): Tree {
    DeletedAll(WrittenAll(t, files), files)
  }

  ghost predicate NoBackups(t: Tree, files: seq<File>) {
    forall i :: 0 <= i < |files| ==> Backup(files[i].location) !in t
  }

  /** The path holds, before the installation, just what the package ships there. */
  predicate ShipsWhatIsThere(t: Tree, f: File) {
    Lookup(t, f.location) == Some(f.content)
  }

  lemma UndoEffect(t: Tree, files: seq<File>)
    requires NoClash(files)
    ensures var u := Undone(t, files);
      && (forall i :: 0 <= i < |files| ==> Lookup(u, files[i].location) == BackupAfter(t, files[i]))
      && (forall i :: 0 <= i < |files| ==> Lookup(u, Backup(files[i].location)) == None)
      && (forall p :: Untouched(p, files) ==> Lookup(u, p) == Lookup(t, p))
  {
    InstallEffect(t, files);
    UninstallEffect(WrittenAll(t, files), files);
  }

  /**
   Uninstalling right after installing gives the tree back exactly when no file found a `.save` already there
   and none shipped what was there before: such content is not backed up, so it is deleted.
   */
  lemma UndoIsExact(t: Tree, files: seq<File>)
    requires NoClash(files)
    ensures Undone(t, files) == t
            <==> NoBackups(t, files) && forall i :: 0 <= i < |files| ==> !ShipsWhatIsThere(t, files[i])
  {
    UndoEffect(t, files);
    var u := Undone(t, files);
    if NoBackups(t, files) && forall i :: 0 <= i < |files| ==> !ShipsWhatIsThere(t, files[i]) {
      forall p
        ensures Lookup(u, p) == Lookup(t, p)
      {
        if !Untouched(p, files) {
          var i :| 0 <= i < |files| && (p == files[i].location || p == Backup(files[i].location));
          assert BackupAfter(t, files[i]) == Lookup(t, files[i].location);
        }
      }
      SameLookups(u, t);
    }
    if u == t {
      forall i | 0 <= i < |files|
        ensures Backup(files[i].location) !in t && !ShipsWhatIsThere(t, files[i])
      {
        assert Lookup(u, Backup(files[i].location)) == None;
        assert Lookup(u, files[i].location) == BackupAfter(t, files[i]);
      }
    }
  }

  /** The locations at which a package ships what is there anyway. */
  function Shadowed(t: Tree, files: seq<File>): set<Path> {
    set i | 0 <= i < |files| && ShipsWhatIsThere(t, files[i]) :: files[i].location
  }

  /** Without earlier backups, undoing an installation removes just those. */
  lemma UndoRemovesShadowed(t: Tree, files: seq<File>)
    requires NoClash(files) && NoBackups(t, files)
    ensures Undone(t, files) == t - Shadowed(t, files)
  {
    UndoEffect(t, files);
    var u, v := Undone(t, files), t - Shadowed(t, files);
    forall p
      ensures Lookup(u, p) == Lookup(v, p)
    {
      if Untouched(p, files) {
        assert p !in Shadowed(t, files);
      } else {
        var i :| 0 <= i < |files| && (p == files[i].location || p == Backup(files[i].location));
        if p == files[i].location {
          assert p in Shadowed(t, files) <==> ShipsWhatIsThere(t, files[i]) by { OneFileAt(t, files, i); }
        }
      }
    }
    SameLookups(u, v);
  }

  lemma OneFileAt(t: Tree, files: seq<File>, i: nat)
    requires Distinct(files) && i < |files|
    ensures files[i].location in Shadowed(t, files) <==> ShipsWhatIsThere(t, files[i])
  {
    if files[i].location in Shadowed(t, files) {
      var j :| 0 <= j < |files| && ShipsWhatIsThere(t, files[j]) && files[j].location == files[i].location;
      assert i == j;
    }
  }

  // ----- Upgrades -----

  /** The tree after installing the versions one after the other (each upgrade uninstalls the one before it). */
  function Upgraded(t: Tree, versions: seq<seq<File>>): Tree {
    if versions == [] then t
    else
      var n := |versions| - 1;
      var before := if n == 0 then t else DeletedAll(Upgraded(t, versions[..n]), versions[n - 1]);
      WrittenAll(before, versions[n])
  }

  /** ... and then uninstalling the last one. */
  function UpgradedAndUndone(t: Tree, versions: seq<seq<File>>): Tree {
    if versions == [] then t else DeletedAll(Upgraded(t, versions), versions[|versions| - 1])
  }

  lemma UpgradesUndoOneByOne(t: Tree, versions: seq<seq<File>>)
    requires versions != []
    ensures var n := |versions| - 1;
      UpgradedAndUndone(t, versions) == Undone(UpgradedAndUndone(t, versions[..n]), versions[n])
  {
    var n := |versions| - 1;
    if n > 0 {
      assert versions[..n][n - 1] == versions[n - 1];
    }
  }

  function ShadowedByAny(t: Tree, versions: seq<seq<File>>): set<Path> {
    set k, i | 0 <= k < |versions| && 0 <= i < |versions[k]| && ShipsWhatIsThere(t, versions[k][i])
      :: versions[k][i].location
  }

  /**
   Upgrading through any versions and uninstalling the last one gives back the original files, except those that
   some version on the way shipped unchanged.
   */
  lemma {:induction false} UpgradesRemoveShadowed(t: Tree, versions: seq<seq<File>>)
    requires forall k :: 0 <= k < |versions| ==> NoClash(versions[k]) && NoBackups(t, versions[k])
    ensures UpgradedAndUndone(t, versions) == t - ShadowedByAny(t, versions)
  {
    if versions != [] {
      var n := |versions| - 1;
      var front, last := versions[..n], versions[n];
      UpgradesRemoveShadowed(t, front);
      UpgradesUndoOneByOne(t, versions);
      var before := UpgradedAndUndone(t, front);
      UndoRemovesShadowed(before, last);
      forall p | p in t
        ensures p in ShadowedByAny(t, versions)
                <==> p in ShadowedByAny(t, front) || p in Shadowed(before, last)
      {
        ShadowStep(t, versions, p);
      }
      assert UpgradedAndUndone(t, versions) == t - ShadowedByAny(t, versions);
    }
  }

  lemma ShadowStep(t: Tree, versions: seq<seq<File>>, p: Path)
    requires versions != [] && p in t
    ensures var n := |versions| - 1;
      p in ShadowedByAny(t, versions)
      <==> p in ShadowedByAny(t, versions[..n])
           || p in Shadowed(t - ShadowedByAny(t, versions[..n]), versions[n])
  {
    var n := |versions| - 1;
    var front, last := versions[..n], versions[n];
    var before := t - ShadowedByAny(t, front);
    if p in ShadowedByAny(t, versions) {
      var k, i :| 0 <= k < |versions| && 0 <= i < |versions[k]| && ShipsWhatIsThere(t, versions[k][i])
                  && versions[k][i].location == p;
      if k < n {
        assert front[k] == versions[k];
        assert p in ShadowedByAny(t, front);
      } else if p !in ShadowedByAny(t, front) {
        assert ShipsWhatIsThere(before, last[i]);
      }
    }
    if p in ShadowedByAny(t, front) {
      var k, i :| 0 <= k < |front| && 0 <= i < |front[k]| && ShipsWhatIsThere(t, front[k][i])
                  && front[k][i].location == p;
      assert versions[k][i] == front[k][i];
    }
    if p in Shadowed(before, last) {
      var i :| 0 <= i < |last| && ShipsWhatIsThere(before, last[i]) && last[i].location == p;
      assert ShipsWhatIsThere(t, versions[n][i]);
    }
  }

  // ----- Verify and reinstall -----

  ghost predicate Verified(t: Tree, files: seq<File>) {
    forall i :: 0 <= i < |files| ==> ShipsWhatIsThere(t, files[i])
  }

  function Reinstalled(t: Tree, files: seq<File>): Tree {
    WrittenAll(DeletedAll(t, files), files)
  }

  /** A reinstallation of a package whose files are in order changes nothing unless a backup equals its file. */
  lemma ReinstallIsNeutral(t: Tree, files: seq<File>)
    requires NoClash(files) && Verified(t, files)
    ensures Reinstalled(t, files) == t
            <==> forall i :: 0 <= i < |files| ==> Lookup(t, Backup(files[i].location)) != Some(files[i].content)
  {
    var d, u := DeletedAll(t, files), Reinstalled(t, files);
    UninstallEffect(t, files);
    InstallEffect(d, files);
    forall i | 0 <= i < |files|
      ensures Lookup(u, files[i].location) == Lookup(t, files[i].location)
      ensures Lookup(u, Backup(files[i].location)) == Lookup(t, Backup(files[i].location))
              <==> Lookup(t, Backup(files[i].location)) != Some(files[i].content)
    {
      assert ShipsWhatIsThere(t, files[i]);
      assert Lookup(u, Backup(files[i].location)) == BackupAfter(d, files[i]);
      assert Lookup(d, files[i].location) == Lookup(t, Backup(files[i].location));
    }
    if forall i :: 0 <= i < |files| ==> Lookup(t, Backup(files[i].location)) != Some(files[i].content) {
      forall p
        ensures Lookup(u, p) == Lookup(t, p)
      {
        if !Untouched(p, files) {
          var i :| 0 <= i < |files| && (p == files[i].location || p == Backup(files[i].location));
        }
      }
      SameLookups(u, t);
    }
  }

  /** Right after a fresh installation, with no backups from before, a reinstallation changes nothing. */
  lemma ReinstallAfterInstall(t: Tree, files: seq<File>)
    requires NoClash(files) && NoBackups(t, files)
    ensures Reinstalled(WrittenAll(t, files), files) == WrittenAll(t, files)
  {
    InstallEffect(t, files);
    var u := WrittenAll(t, files);
    assert Verified(u, files);
    forall i | 0 <= i < |files|
      ensures Lookup(u, Backup(files[i].location)) != Some(files[i].content)
    {
      assert Lookup(u, Backup(files[i].location)) == BackupAfter(t, files[i]);
    }
    ReinstallIsNeutral(u, files);
  }
}
