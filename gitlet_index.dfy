/** The staging index of Gitlet: the tracked files with the hash of the
    blob each is tracked at, the files staged for the next commit, and the
    files staged for removal with the hash they had. */
module GitletIndex {
  import opened Common

  /** The index's three maps, from file name to blob hash. */
  datatype Tracking = Tracking(blobs: map<string, string>, staged: map<string, string>, removed: map<string, string>)

  /** What every operation keeps: a staged file is tracked at its staged
      hash, and a file staged for removal is not tracked. */
  ghost predicate Consistent(t: Tracking)
  {
    && (forall f :: f in t.staged ==> f in t.blobs && t.blobs[f] == t.staged[f])
    && (forall f :: f in t.removed ==> f !in t.blobs)
  }

  /** isChanged(): something is staged, for addition or for removal. */
  predicate Changed(t: Tracking)
  {
    |t.removed| + |t.staged| != 0
  }

  lemma ChangedIff(t: Tracking)
    ensures Changed(t) <==> t.staged != map[] || t.removed != map[]
  {
    if t.staged != map[] {
      var f :| f in t.staged;
    }
    if t.removed != map[] {
      var f :| f in t.removed;
    }
  }

  /** clearStage() */
  function Cleared(t: Tracking): (r: Tracking)
    ensures !Changed(r) && r.blobs == t.blobs
  {
    Tracking(t.blobs, map[], map[])
  }

  /** add(fileName, hash). A file staged for removal is tracked again at the
      hash it was removed with, and the given hash is not used. Otherwise
      the file is tracked at the given hash, and staged only when that
      hash is not the one it was already tracked at. */
  function Added(t: Tracking, f: string, h: string): (r: Tracking)
    ensures f in r.blobs && f !in r.removed
  {
    if f in t.removed then
      Tracking(t.blobs[f := t.removed[f]], t.staged, t.removed - {f})
    else
      var staged := if f !in t.blobs || t.blobs[f] != h then t.staged[f := h] else t.staged;
      Tracking(t.blobs[f := h], staged, t.removed)
  }

  /** remove(fileName, fromLastCommit): IllegalStateException when the file
      is not tracked; otherwise, when the file was in the last commit, it is
      staged for removal at its tracked hash, and it is both unstaged and
      untracked. */
  function Removed(t: Tracking, f: string, fromLastCommit: bool): (r: Result<Tracking>)
    ensures r.Err? <==> f !in t.blobs
    ensures r.Err? ==> r.msg == "No reason to remove the file."
    ensures r.Ok? ==> f !in r.value.blobs && f !in r.value.staged
  {
    if f !in t.blobs then Err("No reason to remove the file.")
    else
      var removed := if fromLastCommit then t.removed[f := t.blobs[f]] else t.removed;
      Ok(Tracking(t.blobs - {f}, t.staged - {f}, removed))
  }

  /** unstage(fileName): IllegalStateException when the file is not
      tracked; otherwise it is no longer staged, and nothing else changes. */
  function Unstaged(t: Tracking, f: string): (r: Result<Tracking>)
    ensures r.Err? <==> f !in t.blobs
    ensures r.Err? ==> r.msg == "No reason to remove the file."
    ensures r.Ok? ==> f !in r.value.staged && r.value.blobs == t.blobs && r.value.removed == t.removed
  {
    if f !in t.blobs then Err("No reason to remove the file.")
    else Ok(Tracking(t.blobs, t.staged - {f}, t.removed))
  }

  /** checkout(filename, hash, stage): with stage, add; without, the file is
      tracked at the hash and is neither staged nor staged for removal. */
  function CheckedOut(t: Tracking, f: string, h: string, stage: bool): (r: Tracking)
    ensures f in r.blobs
    ensures !stage ==> r.blobs[f] == h && f !in r.staged && f !in r.removed
  {
    if stage then Added(t, f, h)
    else Tracking(t.blobs[f := h], t.staged - {f}, t.removed - {f})
  }

  /** checkout(commit): the stage is cleared and the commit's files are
      tracked. */
  function CheckedOutCommit(t: Tracking, commitBlobs: map<string, string>): (r: Tracking)
    ensures !Changed(r) && r.blobs == commitBlobs
  {
    Tracking(commitBlobs, map[], map[])
  }

  /** blobsFromStage(): IllegalStateException when nothing is staged;
      otherwise the stage is cleared and the tracked files returned. */
  function FromStage(t: Tracking): (r: Result<(Tracking, map<string, string>)>)
    ensures r.Err? <==> !Changed(t)
    ensures r.Err? ==> r.msg == "No changes added to the commit."
    ensures r.Ok? ==> r.value.1 == t.blobs && r.value.0.blobs == t.blobs && !Changed(r.value.0)
  {
    if !Changed(t) then Err("No changes added to the commit.") else Ok((Cleared(t), t.blobs))
  }

  // ---------------------------------------------------------------------
  // Properties of the operations.

  /** Adding a file staged for removal brings back the hash it was removed
      with, whatever hash is given, and stages nothing. */
  lemma AddRestoresRemoved(t: Tracking, f: string, h: string)
    requires f in t.removed
    ensures var r := Added(t, f, h);
            r.blobs[f] == t.removed[f] && r.staged == t.staged && f !in r.removed
  {
  }

  /** Adding any other file tracks it at the given hash; it is staged
      exactly when it was staged already, untracked, or tracked at another
      hash; no other file changes. */
  lemma AddStagesChanges(t: Tracking, f: string, h: string)
    requires f !in t.removed
    ensures var r := Added(t, f, h);
            && r.blobs[f] == h
            && (f in r.staged <==> f in t.staged || f !in t.blobs || t.blobs[f] != h)
            && (f in r.staged && f !in t.staged ==> r.staged[f] == h)
            && r.removed == t.removed
            && (forall g :: g != f ==> (g in r.blobs <==> g in t.blobs) && (g in r.staged <==> g in t.staged))
  {
  }

  /** Adding a file at the hash it is tracked at, when it is not staged for
      removal, changes nothing in a consistent index. */
  lemma AddUnchangedIsNoOp(t: Tracking, f: string)
    requires Consistent(t) && f in t.blobs
    ensures Added(t, f, t.blobs[f]) == t
  {
    assert f !in t.removed;
    assert t.blobs[f := t.blobs[f]] == t.blobs;
  }

  /** remove with fromLastCommit records the removed file's tracked hash. */
  lemma RemoveRecords(t: Tracking, f: string)
    requires f in t.blobs
    ensures var r := Removed(t, f, true);
            r.Ok? && f in r.value.removed && r.value.removed[f] == t.blobs[f]
  {
  }

  /** Removing a tracked, unstaged file from the last commit and adding it
      back restores the index, whatever hash the add is given. */
  lemma RemoveThenAdd(t: Tracking, f: string, h: string)
    requires Consistent(t) && f in t.blobs && f !in t.staged
    ensures Removed(t, f, true).Ok? && Added(Removed(t, f, true).value, f, h) == t
  {
    var r := Removed(t, f, true).value;
    assert f !in t.removed;
    var a := Added(r, f, h);
    assert a.blobs == t.blobs;
    assert a.staged == t.staged;
    assert a.removed == t.removed;
  }

  /** Every operation keeps the index consistent. */
  lemma AddConsistent(t: Tracking, f: string, h: string)
    requires Consistent(t)
    ensures Consistent(Added(t, f, h))
  {
  }

  lemma RemoveConsistent(t: Tracking, f: string, fromLastCommit: bool)
    requires Consistent(t) && f in t.blobs
    ensures Consistent(Removed(t, f, fromLastCommit).value)
  {
  }

  lemma UnstageConsistent(t: Tracking, f: string)
    requires Consistent(t) && f in t.blobs
    ensures Consistent(Unstaged(t, f).value)
  {
  }

  lemma CheckoutConsistent(t: Tracking, f: string, h: string, stage: bool)
    requires Consistent(t)
    ensures Consistent(CheckedOut(t, f, h, stage))
  {
    if stage {
      AddConsistent(t, f, h);
    }
  }

  lemma FromStageConsistent(t: Tracking)
    requires Consistent(t) && Changed(t)
    ensures Consistent(FromStage(t).value.0)
  {
  }

  /** The Index object. Its three maps are fields that every operation
      replaces. */
  class Index {
    var blobs: map<string, string>
    var staged: map<string, string>
    var removed: map<string, string>

    function State(): Tracking
      reads this
    {
      Tracking(blobs, staged, removed)
    }

    ghost predicate Valid()
      reads this
    {
      Consistent(State())
    }

    /** new Index(): nothing tracked, nothing staged. */
    constructor ()
      ensures Valid() && State() == Tracking(map[], map[], map[])
    {
      blobs := map[];
      removed := map[];
      staged := map[];
    }

    /** isChanged() */
    function IsChanged(): (b: bool)
      reads this
      ensures b <==> staged != map[] || removed != map[]
    {
      ChangedIff(State());
      |removed| + |staged| != 0
    }

    /** blobsFromStage() */
    method BlobsFromStage() returns (r: Result<map<string, string>>)
      requires Valid()
      modifies this
      ensures Valid()
      ensures var e := FromStage(old(State()));
              if e.Ok? then r == Ok(e.value.1) && State() == e.value.0
              else r == Err(e.msg) && State() == old(State())
    {
      if !IsChanged() {
        return Err("No changes added to the commit.");
      }
      ClearStage();
      r := Ok(blobs);
    }

    /** getBlobs() */
    function GetBlobs(): (r: map<string, string>)
      reads this
      ensures r == State().blobs
    {
      blobs
    }

    /** checkout(filename, hash, stage) */
    method Checkout(f: string, h: string, stage: bool)
      requires Valid()
      modifies this
      ensures Valid() && State() == CheckedOut(old(State()), f, h, stage)
    {
      CheckoutConsistent(State(), f, h, stage);
      if stage {
        Add(f, h);
      } else {
        blobs := blobs[f := h];
        staged := staged - {f};
        removed := removed - {f};
      }
    }

    /** checkout(commit), given the commit's tracked files. */
    method CheckoutCommit(commitBlobs: map<string, string>)
      requires Valid()
      modifies this
      ensures Valid() && State() == CheckedOutCommit(old(State()), commitBlobs)
    {
      ClearStage();
      blobs := commitBlobs;
    }

    /** add(fileName, hash) */
    method Add(f: string, h: string)
      requires Valid()
      modifies this
      ensures Valid() && State() == Added(old(State()), f, h)
    {
      AddConsistent(State(), f, h);
      if f in removed {
        var removedHash := removed[f];
        removed := removed - {f};
        blobs := blobs[f := removedHash];
      } else {
        if f !in blobs || blobs[f] != h {
          staged := staged[f := h];
        }
        blobs := blobs[f := h];
      }
    }

    /** remove(fileName, fromLastCommit) */
    method Remove(f: string, fromLastCommit: bool) returns (r: Result<()>)
      requires Valid()
      modifies this
      ensures Valid()
      ensures var e := Removed(old(State()), f, fromLastCommit);
              if e.Ok? then r == Ok(()) && State() == e.value
              else r == Err(e.msg) && State() == old(State())
    {
      if f !in blobs {
        return Err("No reason to remove the file.");
      }
      RemoveConsistent(State(), f, fromLastCommit);
      if fromLastCommit {
        removed := removed[f := blobs[f]];
      }
      staged := staged - {f};
      blobs := blobs - {f};
      r := Ok(());
    }

    /** unstage(fileName) */
    method Unstage(f: string) returns (r: Result<()>)
      requires Valid()
      modifies this
      ensures Valid()
      ensures var e := Unstaged(old(State()), f);
              if e.Ok? then r == Ok(()) && State() == e.value
              else r == Err(e.msg) && State() == old(State())
    {
      if f !in blobs {
        return Err("No reason to remove the file.");
      }
      UnstageConsistent(State(), f);
      staged := staged - {f};
      r := Ok(());
    }

    /** clearStage() */
    method ClearStage()
      requires Valid()
      modifies this
      ensures Valid() && State() == Cleared(old(State()))
    {
      removed := map[];
      staged := map[];
    }
  }

  /** Taking the blobs for a commit leaves nothing staged, so a second
      commit without changes is refused. */
  method CommitTwice(index: Index) returns (r1: Result<map<string, string>>, r2: Result<map<string, string>>)
    requires index.Valid() && index.IsChanged()
    modifies index
    ensures r1 == Ok(old(index.blobs)) && r2 == Err("No changes added to the commit.")
  {
    r1 := index.BlobsFromStage();
    r2 := index.BlobsFromStage();
  }
}
