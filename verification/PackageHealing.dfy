/** When a reinstallation repairs a package's files whatever happened to the tree. */
module PackageHealing {
  import opened Prelude
  import opened PackageFiles

  /** A file that comes after another one and whose backup would go where that one was written. */
  predicate Overwrites(files: seq<File>, i: nat, j: nat) {
    i < j < |files| && files[i].location == Backup(files[j].location)
  }

  ghost predicate Heals(files: seq<File>) {
    forall t: Tree :: Verified(Reinstalled(t, files), files)
  }

  /** A location that is listed twice has the same content both times. */
  predicate Consistent(files: seq<File>) {
    forall i, j :: 0 <= i < j < |files| && files[i].location == files[j].location ==>
      files[i].content == files[j].content
  }

  /** Writing all files leaves each with its content, unless a later one's backup is put over it. */
  lemma {:induction false} WritingVerifies(t: Tree, files: seq<File>)
    requires Consistent(files) && forall i, j :: !Overwrites(files, i, j)
    ensures Verified(WrittenAll(t, files), files)
  {
    if files != [] {
      var n := |files| - 1;
      var front, last := files[..n], files[n];
      forall i, j
        ensures !Overwrites(front, i, j)
      {
        assert !Overwrites(files, i, j);
      }
      WritingVerifies(t, front);
      var t1 := WrittenAll(t, front);
      BackupIsInjective(last.location, last.location);
      forall i | 0 <= i < |files|
        ensures ShipsWhatIsThere(Written(t1, last), files[i])
      {
        if i < n {
          assert files[i] == front[i] && ShipsWhatIsThere(t1, front[i]);
          assert !Overwrites(files, i, n);
        }
      }
    }
  }

  /** A package with two contents for one location is never in order. */
  lemma InconsistentIsNeverVerified(t: Tree, files: seq<File>)
    requires Verified(t, files)
    ensures Consistent(files)
  {
    forall i, j | 0 <= i < j < |files| && files[i].location == files[j].location
      ensures files[i].content == files[j].content
    {
      assert ShipsWhatIsThere(t, files[i]) && ShipsWhatIsThere(t, files[j]);
    }
  }

  // ----- A tree that is not repaired -----

  /** A content that no file of the package has. */
  function Foreign(files: seq<File>): (c: Content)
    ensures forall i :: 0 <= i < |files| ==> |files[i].content| < |c|
  {
    if files == [] then "x"
    else
      var c := Foreign(files[..|files| - 1]);
      c + files[|files| - 1].content + "x"
  }

  lemma {:induction false} FirstOverwritten(files: seq<File>, i: nat, j: nat) returns (a: nat, b: nat)
    requires Overwrites(files, i, j)
    ensures Overwrites(files, a, b) && forall k :: !Overwrites(files, k, a)
    decreases i
  {
    if k: nat :| Overwrites(files, k, i) {
      a, b := FirstOverwritten(files, k, i);
    } else {
      a, b := i, j;
    }
  }

  function DeletedFrom(t: Tree, files: seq<File>, m: nat): Tree
    requires m <= |files|
    decreases |files| - m
  {
    if m == |files| then t else DeletedFrom(Deleted(t, files[m].location), files, m + 1)
  }

  lemma {:induction false} DeletedInOrder(t: Tree, files: seq<File>, m: nat)
    requires m <= |files|
    ensures DeletedAll(t, files) == DeletedFrom(DeletedAll(t, files[..m]), files, m)
    decreases |files| - m
  {
    if m == |files| {
      assert files[..m] == files;
    } else {
      DeletedInOrder(t, files, m + 1);
      assert files[..m + 1][..m] == files[..m];
    }
  }

  /** A tree of one file: deleting the location whose backup it is moves it there. */
  lemma DeletingMovesTheBackup(p: Path, x: Content, q: Path)
    ensures Backup(q) == p ==> Deleted(map[p := x], q) == map[q := x]
    ensures Backup(q) != p && q != p ==> Deleted(map[p := x], q) == map[p := x]
  {
  }

  /** A restored file stays at a location of the package, or moves on to one that is written later. */
  lemma {:induction false} TheFileMovesDown(files: seq<File>, x: Content, m: nat, a: nat) returns (b: nat)
    requires Distinct(files) && a < m <= |files|
    ensures b < |files| && DeletedFrom(map[files[a].location := x], files, m) == map[files[b].location := x]
    ensures b == a || m <= b
    ensures if b == a then forall k :: m <= k < |files| ==> Backup(files[k].location) != files[a].location
            else exists s :: Overwrites(files, s, b)
    decreases |files| - m
  {
    if m == |files| {
      b := a;
    } else {
      DeletingMovesTheBackup(files[a].location, x, files[m].location);
      if Backup(files[m].location) == files[a].location {
        b := TheFileMovesDown(files, x, m + 1, m);
        assert Overwrites(files, a, m);
      } else {
        b := TheFileMovesDown(files, x, m + 1, a);
      }
    }
  }

  lemma {:induction false} TheFileWaits(files: seq<File>, x: Content, a: nat, m: nat)
    requires Distinct(files) && m <= a < |files|
    requires forall k :: !Overwrites(files, k, a)
    ensures DeletedAll(map[Backup(files[a].location) := x], files[..m]) == map[Backup(files[a].location) := x]
  {
    if m > 0 {
      TheFileWaits(files, x, a, m - 1);
      assert files[..m][..m - 1] == files[..m - 1];
      assert !Overwrites(files, m - 1, a);
      BackupIsInjective(files[m - 1].location, files[a].location);
      DeletingMovesTheBackup(Backup(files[a].location), x, files[m - 1].location);
    }
  }

  /** From a suitable tree of one file, the uninstallation leaves it at the location of an overwriting file. */
  lemma LeftOver(files: seq<File>, x: Content, i: nat, j: nat) returns (t: Tree, s: nat, b: nat)
    requires Distinct(files) && Overwrites(files, i, j)
    ensures Overwrites(files, s, b) && DeletedAll(t, files) == map[files[b].location := x]
  {
    var a, j' := FirstOverwritten(files, i, j);
    t := map[Backup(files[a].location) := x];
    TheFileWaits(files, x, a, a);
    DeletedInOrder(t, files, a);
    DeletingMovesTheBackup(Backup(files[a].location), x, files[a].location);
    b := TheFileMovesDown(files, x, a + 1, a);
    s :| Overwrites(files, s, b);
  }

  /** Writing the files over that left-over: first as if it were not there, then it is put over another file. */
  ghost predicate WritesOver(t: Tree, files: seq<File>, m: nat, s: nat, b: nat, x: Content)
    requires Overwrites(files, s, b) && m <= |files|
  {
    && (forall k :: m <= k < |files| && k != b ==> files[k].location !in t)
    && (m <= b ==> Lookup(t, files[b].location) == Some(x))
    && (b < m ==> Lookup(t, files[s].location) == Some(x))
  }

  lemma {:induction false} TheFileIsPutOver(files: seq<File>, m: nat, s: nat, b: nat, x: Content)
    requires Distinct(files) && Overwrites(files, s, b) && m <= |files|
    requires forall k :: 0 <= k < |files| ==> files[k].content != x
    ensures WritesOver(WrittenAll(map[files[b].location := x], files[..m]), files, m, s, b, x)
  {
    if m > 0 {
      TheFileIsPutOver(files, m - 1, s, b, x);
      assert files[..m][..m - 1] == files[..m - 1];
      BackupIsInjective(files[m - 1].location, files[m - 1].location);
    }
  }

  lemma OverwritingIsNotHealed(files: seq<File>, i: nat, j: nat) returns (t: Tree)
    requires Distinct(files) && Overwrites(files, i, j)
    ensures !Verified(Reinstalled(t, files), files)
  {
    var x := Foreign(files);
    var s, b;
    t, s, b := LeftOver(files, x, i, j);
    TheFileIsPutOver(files, |files|, s, b, x);
    assert files[..|files|] == files;
    assert !ShipsWhatIsThere(Reinstalled(t, files), files[s]);
  }

  /**
   A package with distinct locations is repaired by a reinstallation, whatever the state of the tree, exactly
   when no file's backup would go over a file that was written before it.
   */
  lemma ReinstallHealsExactly(files: seq<File>)
    requires Distinct(files)
    ensures Heals(files) <==> forall i, j :: !Overwrites(files, i, j)
  {
    if forall i, j :: !Overwrites(files, i, j) {
      forall t: Tree
        ensures Verified(Reinstalled(t, files), files)
      {
        WritingVerifies(DeletedAll(t, files), files);
      }
    } else {
      var i: nat, j: nat :| Overwrites(files, i, j);
      var t := OverwritingIsNotHealed(files, i, j);
    }
  }
}
