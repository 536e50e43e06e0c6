/** The write-sidecars-then-store transaction (backend/src/process/sidecar_edit.rs) over a
    filesystem whose operations may fail. Writing and restoring both stage a temporary file beside
    the sidecar and rename it. */
module SidecarEdit {
  import opened Wrappers

  newtype byte = x: int | 0 <= x < 256
  type Bytes = seq<byte>

  datatype Path = Path(dir: string, name: string)

  type Files = map<Path, Bytes>

  /** What an edit is applied to: a media file, if it still has a path, or an album directory. */
  datatype Target = Media(path: Option<Path>) | Album(dir: string)

  datatype Item = Item(assetId: string, target: Target)

  // ---- Names

  function LastDot(name: string): Option<nat> {
    if name == "" then None
    else if name[|name| - 1] == '.' then Some(|name| - 1)
    else LastDot(name[..|name| - 1])
  }

  lemma {:induction false} LastDotInName(name: string)
    ensures LastDot(name).Some? ==> LastDot(name).value < |name|
  {
    if name != "" && name[|name| - 1] != '.' {
      LastDotInName(name[..|name| - 1]);
    }
  }

  /** The name without its extension; a leading dot starts no extension. */
  function Stem(name: string): string {
    LastDotInName(name);
    match LastDot(name)
    case Some(i) => if i > 0 then name[..i] else name
    case None => name
  }

  function SidecarPath(t: Target): Option<Path> {
    match t
    case Album(dir) => Some(Path(dir, ".albuminfo.xmp"))
    case Media(None) => None
    case Media(Some(p)) => Some(Path(p.dir, Stem(p.name) + ".xmp"))
  }

  /** Where a sidecar is staged before it is renamed into place. */
  function StagingPath(p: Path): Path {
    Path(p.dir, "." + p.name + ".tmp")
  }

  lemma SidecarIsNeverStaging(t: Target, q: Path)
    requires SidecarPath(t).Some?
    ensures SidecarPath(t).value != StagingPath(q)
  {
    var s, g := SidecarPath(t).value.name, StagingPath(q).name;
    assert s[|s| - 1] == 'p' && s[|s| - 2] == 'm' && s[|s| - 3] == 'x';
    assert g[|g| - 3] == 't';
  }

  lemma StagingInjective(p: Path, q: Path)
    requires StagingPath(p) == StagingPath(q)
    ensures p == q
  {
    assert p.name == StagingPath(p).name[1..|p.name| + 1] && q.name == StagingPath(q).name[1..|q.name| + 1];
  }

  // ---- Backups and rollback

  /** The bytes a sidecar held immediately before it was written, if it existed. */
  datatype Backup = Backup(path: Path, previous: Option<Bytes>)

  /** A restore succeeds, or fails leaving its target alone and possibly a staged file behind. */
  datatype Restore = Restored | Failed(staged: Option<Bytes>)

  function RestoreOne(files: Files, b: Backup, outcome: Restore): Files {
    match (outcome, b.previous)
    case (Restored, Some(bytes)) => (files - {StagingPath(b.path)})[b.path := bytes]
    case (Restored, None) => files - {b.path}
    case (Failed(Some(rest)), Some(_)) => files[StagingPath(b.path) := rest]
    case (Failed(_), _) => files
  }

  /** Restore the backups from the last to the first; `outcomes(i)` is how backup `i` fares. */
  function Rollback(files: Files, applied: seq<Backup>, outcomes: nat -> Restore): Files
    decreases |applied|
  {
    if applied == [] then files
    else
      var n := |applied| - 1;
      Rollback(RestoreOne(files, applied[n], outcomes(n)), applied[..n], outcomes)
  }

  predicate Touches(applied: seq<Backup>, p: Path) {
    exists i :: 0 <= i < |applied| && applied[i].path == p
  }

  /** Restoring stages `p` under its temporary name. */
  predicate Restages(applied: seq<Backup>, p: Path) {
    exists i :: 0 <= i < |applied| && applied[i].path == p && applied[i].previous.Some?
  }

  predicate IsStaging(applied: seq<Backup>, p: Path) {
    exists i :: 0 <= i < |applied| && StagingPath(applied[i].path) == p
  }

  predicate Earliest(applied: seq<Backup>, i: nat, p: Path) {
    i < |applied| && applied[i].path == p && !Touches(applied[..i], p)
  }

  /** Rolling back in reverse leaves a path as its earliest restored backup had it; a path no
      backup names or stages is not touched. */
  lemma {:induction false} RollbackLeaves(files: Files, applied: seq<Backup>, outcomes: nat -> Restore, p: Path)
    requires !IsStaging(applied, p)
    ensures !Touches(applied, p) ==> Lookup(Rollback(files, applied, outcomes), p) == Lookup(files, p)
    ensures forall i: nat :: Earliest(applied, i, p) && outcomes(i).Restored? ==>
      Lookup(Rollback(files, applied, outcomes), p) == applied[i].previous
    decreases |applied|
  {
    if applied != [] {
      var n := |applied| - 1;
      var mid := RestoreOne(files, applied[n], outcomes(n));
      assert !IsStaging(applied[..n], p) by {
        assert forall i :: 0 <= i < n ==> applied[..n][i] == applied[i];
      }
      RollbackLeaves(mid, applied[..n], outcomes, p);
      assert StagingPath(applied[n].path) != p;
      if !Touches(applied, p) {
        assert applied[n].path != p;
        assert forall i :: 0 <= i < n ==> applied[..n][i] == applied[i];
        assert !Touches(applied[..n], p);
      }
      forall i: nat | Earliest(applied, i, p) && outcomes(i).Restored?
        ensures Lookup(Rollback(files, applied, outcomes), p) == applied[i].previous
      {
        assert applied[..n][..if i < n then i else n] == applied[..if i < n then i else n];
        if i < n {
          assert Earliest(applied[..n], i, p);
        }
      }
    }
  }

  /** When every restore succeeds, a temporary name is gone if a restore staged under it, and left
      alone otherwise. */
  lemma {:induction false} StagingAfterRollback(files: Files, applied: seq<Backup>, outcomes: nat -> Restore, p: Path)
    requires !Touches(applied, StagingPath(p)) && forall i: nat :: i < |applied| ==> outcomes(i).Restored?
    ensures Lookup(Rollback(files, applied, outcomes), StagingPath(p))
         == if Restages(applied, p) then None else Lookup(files, StagingPath(p))
    decreases |applied|
  {
    if applied != [] {
      var n := |applied| - 1;
      forall i | 0 <= i < n ensures applied[..n][i] == applied[i] {
      }
      assert applied[n].path != StagingPath(p);
      assert !Touches(applied[..n], StagingPath(p));
      if StagingPath(applied[n].path) == StagingPath(p) {
        StagingInjective(applied[n].path, p);
      }
      StagingAfterRollback(RestoreOne(files, applied[n], outcomes(n)), applied[..n], outcomes, p);
      assert Restages(applied, p) <==>
        Restages(applied[..n], p) || (applied[n].path == p && applied[n].previous.Some?);
    }
  }

  // ---- Writing

  /** What the writer puts in an item's sidecar, given what the sidecar held. */
  type Writer = (Item, Option<Bytes>) -> Bytes

  /** A write that lands: staged under the temporary name, then renamed. */
  function WriteOne(write: Writer, files: Files, item: Item, p: Path): Files {
    (files - {StagingPath(p)})[p := write(item, Lookup(files, p))]
  }

  /** The files and backups after every item was captured and written. */
  function Advance(write: Writer, files: Files, items: seq<Item>): (Files, seq<Backup>) {
    if items == [] then (files, [])
    else
      var n := |items| - 1;
      var (f, applied) := Advance(write, files, items[..n]);
      match SidecarPath(items[n].target)
      case None => (f, applied)
      case Some(p) => (WriteOne(write, f, items[n], p), applied + [Backup(p, Lookup(f, p))])
  }

  /** Some item's sidecar is `p`. */
  predicate Names(items: seq<Item>, p: Path) {
    exists i :: 0 <= i < |items| && SidecarPath(items[i].target) == Some(p)
  }

  /** Some item's sidecar is staged under `p`. */
  predicate Stages(items: seq<Item>, p: Path) {
    exists i :: 0 <= i < |items| && SidecarPath(items[i].target).Some?
      && StagingPath(SidecarPath(items[i].target).value) == p
  }

  lemma NamesAppend(items: seq<Item>, p: Path)
    requires items != []
    ensures var n := |items| - 1;
      Names(items, p) <==> Names(items[..n], p) || SidecarPath(items[n].target) == Some(p)
  {
    var n := |items| - 1;
    assert forall i :: 0 <= i < n ==> items[..n][i] == items[i];
  }

  lemma StagesPrefix(items: seq<Item>, n: nat, p: Path)
    requires n <= |items| && !Stages(items, p)
    ensures !Stages(items[..n], p)
  {
    assert forall i :: 0 <= i < n ==> items[..n][i] == items[i];
  }

  lemma NamedIsNotStaged(items: seq<Item>, t: Target, p: Path)
    requires SidecarPath(t) == Some(p)
    ensures !Stages(items, p)
  {
    forall i | 0 <= i < |items| && SidecarPath(items[i].target).Some?
      ensures StagingPath(SidecarPath(items[i].target).value) != p
    {
      SidecarIsNeverStaging(t, SidecarPath(items[i].target).value);
    }
  }

  /** The earliest backup of each path holds its original bytes; a path neither backed up nor used for
      staging is as it was. */
  lemma {:induction false} AdvanceBacksUp(write: Writer, files: Files, items: seq<Item>, p: Path)
    requires !Stages(items, p)
    ensures var (f, applied) := Advance(write, files, items);
      && (!Touches(applied, p) ==> Lookup(f, p) == Lookup(files, p))
      && (forall i: nat :: Earliest(applied, i, p) ==> applied[i].previous == Lookup(files, p))
  {
    if items != [] {
      var n := |items| - 1;
      StagesPrefix(items, n, p);
      AdvanceBacksUp(write, files, items[..n], p);
      var (f, before) := Advance(write, files, items[..n]);
      if SidecarPath(items[n].target).Some? {
        var q := SidecarPath(items[n].target).value;
        assert StagingPath(q) != p;
        BackupAppended(before, Backup(q, Lookup(f, q)), p);
      }
    }
  }

  lemma BackupAppended(before: seq<Backup>, b: Backup, p: Path)
    ensures Touches(before + [b], p) <==> Touches(before, p) || b.path == p
    ensures forall i: nat :: Earliest(before + [b], i, p) ==>
      if i < |before| then Earliest(before, i, p) else !Touches(before, p) && b.path == p
  {
    var applied, m := before + [b], |before|;
    assert forall i :: 0 <= i < m ==> applied[i] == before[i];
    assert applied[m] == b;
    forall i: nat | Earliest(applied, i, p)
      ensures if i < m then Earliest(before, i, p) else !Touches(before, p) && b.path == p
    {
      assert applied[..i] == before[..i];
      if i == m {
        assert before[..i] == before;
      }
    }
  }

  lemma {:induction false} BackupOf(write: Writer, files: Files, items: seq<Item>, i: nat) returns (j: nat)
    requires i < |Advance(write, files, items).1|
    ensures j < |items| && SidecarPath(items[j].target) == Some(Advance(write, files, items).1[i].path)
  {
    var n := |items| - 1;
    if i < |Advance(write, files, items[..n]).1| {
      j := BackupOf(write, files, items[..n], i);
    } else {
      j := n;
    }
  }

  lemma BackupsNameSidecars(write: Writer, files: Files, items: seq<Item>, q: Path)
    ensures var applied := Advance(write, files, items).1;
      && !Touches(applied, StagingPath(q))
      && (IsStaging(applied, q) ==> Stages(items, q))
  {
    var applied := Advance(write, files, items).1;
    forall i | 0 <= i < |applied|
      ensures applied[i].path != StagingPath(q) && (StagingPath(applied[i].path) == q ==> Stages(items, q))
    {
      var j := BackupOf(write, files, items, i);
      SidecarIsNeverStaging(items[j].target, q);
    }
  }

  /** A written sidecar's temporary name is gone; another's is as it was. */
  lemma {:induction false} StagingAfterAdvance(write: Writer, files: Files, items: seq<Item>, p: Path)
    ensures Lookup(Advance(write, files, items).0, StagingPath(p))
         == if Names(items, p) then None else Lookup(files, StagingPath(p))
  {
    if items != [] {
      var n := |items| - 1;
      StagingAfterAdvance(write, files, items[..n], p);
      NamesAppend(items, p);
      if SidecarPath(items[n].target).Some? {
        var q := SidecarPath(items[n].target).value;
        SidecarIsNeverStaging(items[n].target, p);
        if StagingPath(q) == StagingPath(p) {
          StagingInjective(q, p);
        }
      }
    }
  }

  lemma {:induction false} ExistsAfterAdvance(write: Writer, files: Files, items: seq<Item>, p: Path)
    requires !Stages(items, p)
    ensures p in Advance(write, files, items).0 <==> p in files || Names(items, p)
  {
    if items != [] {
      var n := |items| - 1;
      StagesPrefix(items, n, p);
      ExistsAfterAdvance(write, files, items[..n], p);
      NamesAppend(items, p);
      assert SidecarPath(items[n].target).Some? ==> StagingPath(SidecarPath(items[n].target).value) != p;
    }
  }

  /** Some item writes `p` over a file: one that was there, or one an earlier item wrote. */
  predicate Overwrites(files: Files, items: seq<Item>, p: Path) {
    exists i :: 0 <= i < |items| && SidecarPath(items[i].target) == Some(p) && (p in files || Names(items[..i], p))
  }

  lemma OverwritesAppend(files: Files, items: seq<Item>, p: Path)
    requires items != []
    ensures var n := |items| - 1;
      Overwrites(files, items, p) <==>
        || Overwrites(files, items[..n], p)
        || (SidecarPath(items[n].target) == Some(p) && (p in files || Names(items[..n], p)))
  {
    var n := |items| - 1;
    assert forall i :: 0 <= i < n ==> items[..n][i] == items[i] && items[..n][..i] == items[..i];
  }

  /** Exactly the overwritten sidecars are staged again when they are restored. */
  lemma {:induction false} RestagesIff(write: Writer, files: Files, items: seq<Item>, p: Path)
    requires !Stages(items, p)
    ensures Restages(Advance(write, files, items).1, p) <==> Overwrites(files, items, p)
  {
    if items != [] {
      var n := |items| - 1;
      StagesPrefix(items, n, p);
      RestagesIff(write, files, items[..n], p);
      OverwritesAppend(files, items, p);
      ExistsAfterAdvance(write, files, items[..n], p);
      var (f, before) := Advance(write, files, items[..n]);
      if SidecarPath(items[n].target).Some? {
        var q := SidecarPath(items[n].target).value;
        RestagesAppend(before, Backup(q, Lookup(f, q)), p);
      }
    }
  }

  lemma RestagesAppend(before: seq<Backup>, b: Backup, p: Path)
    ensures Restages(before + [b], p) <==> Restages(before, p) || (b.path == p && b.previous.Some?)
  {
    var applied := before + [b];
    assert forall i :: 0 <= i < |before| ==> applied[i] == before[i];
    assert applied[|before|] == b;
  }

  lemma {:induction false} FindEarliest(applied: seq<Backup>, p: Path) returns (i: nat)
    requires Touches(applied, p)
    ensures Earliest(applied, i, p)
  {
    var n := |applied| - 1;
    if Touches(applied[..n], p) {
      i := FindEarliest(applied[..n], p);
      assert applied[..n][..i] == applied[..i];
    } else {
      i := n;
      forall k | 0 <= k < n ensures applied[k].path != p {
        assert applied[..n][k] == applied[k];
      }
    }
  }

  // ---- The transaction

  /** A write lands, or is refused leaving its target alone and possibly a staged file behind. */
  datatype Attempt = Landed | Refused(staged: Option<Bytes>)

  /** How each operation of a request fares: reads and writes by item, restores by backup. */
  datatype Faults = Faults(readOk: nat -> bool, attempt: nat -> Attempt, restore: nat -> Restore, storeOk: nat -> bool)

  /** Item `k` has a sidecar that cannot be captured or written. */
  predicate Blocked(items: seq<Item>, faults: Faults, k: nat)
    requires k < |items|
  {
    SidecarPath(items[k].target).Some? && !(faults.readOk(k) && faults.attempt(k).Landed?)
  }

  function FirstBlocked(items: seq<Item>, faults: Faults, from: nat): (k: nat)
    requires from <= |items|
    ensures from <= k <= |items| && (k < |items| ==> Blocked(items, faults, k))
    ensures forall i :: from <= i < k ==> !Blocked(items, faults, i)
    decreases |items| - from
  {
    if from == |items| || Blocked(items, faults, from) then from else FirstBlocked(items, faults, from + 1)
  }

  function FirstUnstored(faults: Faults, total: nat, from: nat): (k: nat)
    requires from <= total
    ensures from <= k <= total && (k < total ==> !faults.storeOk(k))
    ensures forall i :: from <= i < k ==> faults.storeOk(i)
    decreases total - from
  {
    if from == total || !faults.storeOk(from) then from else FirstUnstored(faults, total, from + 1)
  }

  datatype Outcome = Outcome(files: Files, stored: seq<Item>, ok: bool)

  /** What the refused write leaves under its temporary name; a failed capture never gets that far. */
  function Leftover(faults: Faults, k: nat): Option<Bytes> {
    if faults.readOk(k) && faults.attempt(k).Refused? then faults.attempt(k).staged else None
  }

  function LeaveBehind(files: Files, p: Path, left: Option<Bytes>): Files {
    match left
    case None => files
    case Some(rest) => files[StagingPath(p) := rest]
  }

  function Commit(write: Writer, files: Files, items: seq<Item>, faults: Faults): Outcome {
    var k := FirstBlocked(items, faults, 0);
    if k < |items| then
      var (f, applied) := Advance(write, files, items[..k]);
      var left := LeaveBehind(f, SidecarPath(items[k].target).value, Leftover(faults, k));
      Outcome(Rollback(left, applied, faults.restore), [], false)
    else
      var j := FirstUnstored(faults, |items|, 0);
      Outcome(Advance(write, files, items).0, items[..j], j == |items|)
  }

  class FileSystem {
    var files: Files

    method RollBack(applied: seq<Backup>, outcomes: nat -> Restore)
      modifies this
      ensures files == Rollback(old(files), applied, outcomes)
    {
      var i := |applied|;
      assert applied[..i] == applied;
      while i > 0
        invariant 0 <= i <= |applied|
        invariant Rollback(files, applied[..i], outcomes) == Rollback(old(files), applied, outcomes)
      {
        assert applied[..i][..i - 1] == applied[..i - 1];
        i := i - 1;
        files := RestoreOne(files, applied[i], outcomes(i));
      }
    }

    /** Capture and write every sidecar, undoing all of them if one cannot be; then store. */
    method CommitWith(write: Writer, items: seq<Item>, faults: Faults) returns (stored: seq<Item>, ok: bool)
      modifies this
      ensures Outcome(files, stored, ok) == Commit(write, old(files), items, faults)
    {
      var applied: seq<Backup> := [];
      stored := [];
      for i := 0 to |items|
        invariant (files, applied) == Advance(write, old(files), items[..i])
        invariant FirstBlocked(items, faults, 0) == FirstBlocked(items, faults, i)
      {
        assert items[..i + 1][..i] == items[..i];
        var sidecar := SidecarPath(items[i].target);
        if sidecar.Some? {
          if !faults.readOk(i) {
            RollBack(applied, faults.restore);
            return [], false;
          }
          var backup := Backup(sidecar.value, Lookup(files, sidecar.value));
          if faults.attempt(i).Refused? {
            files := LeaveBehind(files, sidecar.value, faults.attempt(i).staged);
            RollBack(applied, faults.restore);
            return [], false;
          }
          files := WriteOne(write, files, items[i], sidecar.value);
          applied := applied + [backup];
        }
      }
      assert items[..|items|] == items;
      for i := 0 to |items|
        invariant files == Advance(write, old(files), items).0 && stored == items[..i]
        invariant FirstUnstored(faults, |items|, 0) == FirstUnstored(faults, |items|, i)
      {
        if !faults.storeOk(i) {
          return stored, false;
        }
        stored := stored + [items[i]];
      }
      ok := true;
    }
  }

  // ---- What a failed request leaves

  /** The request fails at item `k`, the first that cannot be captured or written. */
  predicate FailsAt(items: seq<Item>, faults: Faults, k: nat) {
    k < |items| && FirstBlocked(items, faults, 0) == k
  }

  /** After a failed request, a path whose earliest backup was restored is back to its original bytes,
      and so is a path the request never wrote, unless it is the staging name of a sidecar it wrote or
      tried to write. */
  lemma RollbackRestores(write: Writer, files: Files, items: seq<Item>, faults: Faults, k: nat, p: Path)
    requires FailsAt(items, faults, k) && !Stages(items[..k + 1], p)
    requires forall i: nat :: Earliest(Advance(write, files, items[..k]).1, i, p) ==> faults.restore(i).Restored?
    ensures Lookup(Commit(write, files, items, faults).files, p) == Lookup(files, p)
  {
    var (f, applied) := Advance(write, files, items[..k]);
    var left := LeaveBehind(f, SidecarPath(items[k].target).value, Leftover(faults, k));
    assert items[..k + 1][..k] == items[..k] && items[..k + 1][k] == items[k];
    StagesPrefix(items[..k + 1], k, p);
    AdvanceBacksUp(write, files, items[..k], p);
    BackupsNameSidecars(write, files, items[..k], p);
    assert Lookup(left, p) == Lookup(f, p);
    RollbackLeaves(left, applied, faults.restore, p);
    if Touches(applied, p) {
      var i := FindEarliest(applied, p);
      assert Earliest(applied, i, p);
    }
  }

  /** The refused write left a file under the temporary name of `p` that no restore stages over. */
  predicate Abandoned(files: Files, items: seq<Item>, faults: Faults, k: nat, p: Path)
    requires k < |items|
  {
    SidecarPath(items[k].target) == Some(p) && Leftover(faults, k).Some? && !Overwrites(files, items[..k], p)
  }

  /** The temporary name of a sidecar after a failed request whose restores all succeed. */
  lemma StagingAfterFailure(write: Writer, files: Files, items: seq<Item>, faults: Faults, k: nat, p: Path)
    requires FailsAt(items, faults, k) && Names(items[..k + 1], p)
    requires forall i: nat :: i < |Advance(write, files, items[..k]).1| ==> faults.restore(i).Restored?
    ensures Lookup(Commit(write, files, items, faults).files, StagingPath(p)) ==
      if Abandoned(files, items, faults, k, p) then Leftover(faults, k)
      else if Names(items[..k], p) then None
      else Lookup(files, StagingPath(p))
  {
    var (f, applied) := Advance(write, files, items[..k]);
    var q := SidecarPath(items[k].target).value;
    var left := LeaveBehind(f, q, Leftover(faults, k));
    var i :| 0 <= i < k + 1 && SidecarPath(items[..k + 1][i].target) == Some(p);
    NamedIsNotStaged(items[..k], items[..k + 1][i].target, p);
    if StagingPath(q) == StagingPath(p) {
      StagingInjective(q, p);
    }
    StagingAfterAdvance(write, files, items[..k], p);
    BackupsNameSidecars(write, files, items[..k], p);
    StagingAfterRollback(left, applied, faults.restore, p);
    RestagesIff(write, files, items[..k], p);
    if Overwrites(files, items[..k], p) {
      var j :| 0 <= j < k && SidecarPath(items[..k][j].target) == Some(p);
      assert Names(items[..k], p);
    }
  }

  /** The temporary name of `p` held what a failed request leaves there: the abandoned file, or nothing
      if `p` was written. */
  predicate StagingKept(files: Files, items: seq<Item>, faults: Faults, k: nat, p: Path)
    requires k < |items|
  {
    var was := Lookup(files, StagingPath(p));
    if Abandoned(files, items, faults, k, p) then was == Leftover(faults, k)
    else Names(items[..k], p) ==> was.None?
  }

  /** When every restore succeeds, a failed request leaves the whole filesystem byte-identical, even
      with shared sidecars, if and only if no file sat under the staging name of a sidecar it wrote and
      the refused write left its own staging name as it was (or a restore cleared it again). */
  lemma FullRollbackIsExactIff(write: Writer, files: Files, items: seq<Item>, faults: Faults, k: nat)
    requires FailsAt(items, faults, k)
    requires forall i: nat :: i < |Advance(write, files, items[..k]).1| ==> faults.restore(i).Restored?
    ensures Commit(write, files, items, faults).files == files <==>
      forall p :: Names(items[..k + 1], p) ==> StagingKept(files, items, faults, k, p)
  {
    var after := Commit(write, files, items, faults).files;
    forall p | Names(items[..k + 1], p)
      ensures Lookup(after, StagingPath(p)) == Lookup(files, StagingPath(p)) <==>
        StagingKept(files, items, faults, k, p)
    {
      StagingAfterFailure(write, files, items, faults, k, p);
    }
    if forall p :: Names(items[..k + 1], p) ==> StagingKept(files, items, faults, k, p) {
      forall p ensures Lookup(after, p) == Lookup(files, p) {
        if Stages(items[..k + 1], p) {
          var i :| 0 <= i < k + 1 && SidecarPath(items[..k + 1][i].target).Some?
            && StagingPath(SidecarPath(items[..k + 1][i].target).value) == p;
          assert Names(items[..k + 1], SidecarPath(items[..k + 1][i].target).value);
        } else {
          RollbackRestores(write, files, items, faults, k, p);
        }
      }
      SameLookups(after, files);
    }
  }

  /** A request that fails while writing, leaves no staged file and is fully restored changes no file
      and stores nothing, provided no file sat under the staging name of a sidecar it wrote. */
  lemma FailedCommitChangesNothing(write: Writer, files: Files, items: seq<Item>, faults: Faults, k: nat)
    requires FailsAt(items, faults, k) && Leftover(faults, k).None?
    requires forall i :: faults.restore(i).Restored?
    requires forall p :: Names(items[..k], p) ==> StagingPath(p) !in files
    ensures Commit(write, files, items, faults) == Outcome(files, [], false)
  {
    FullRollbackIsExactIff(write, files, items, faults, k);
  }

  lemma WrittenStagingIsLost(write: Writer, files: Files, a: Item, b: Item, faults: Faults, side: Path)
    requires SidecarPath(a.target) == Some(side) && SidecarPath(b.target).Some? && SidecarPath(b.target) != Some(side)
    requires faults.readOk(0) && faults.attempt(0).Landed? && faults.attempt(1).Refused? && faults.restore(0).Restored?
    ensures var o := Commit(write, files, [a, b], faults);
      !o.ok && StagingPath(side) !in o.files
  {
    var items := [a, b];
    assert !Blocked(items, faults, 0) && Blocked(items, faults, 1);
    assert FirstBlocked(items, faults, 0) == FirstBlocked(items, faults, 1) == 1;
    assert items[..2] == items && items[..1] == [a] && [a][..0] == [];
    assert SidecarPath(items[0].target) == Some(side) && SidecarPath([a][0].target) == Some(side);
    StagingAfterFailure(write, files, items, faults, 1, side);
  }

  /** It happens, whether or not `a.xmp` exists: the second of two writes is refused in a directory that
      holds `.a.xmp.tmp`, every restore succeeds, and that file is gone. */
  lemma RollbackLosesStagedName(write: Writer, dir: string, files: Files, faults: Faults)
    requires Path(dir, ".a.xmp.tmp") in files
    requires faults.readOk(0) && faults.attempt(0).Landed? && faults.attempt(1).Refused? && faults.restore(0).Restored?
    ensures var items := [Item("a", Media(Some(Path(dir, "a.jpg")))), Item("b", Media(Some(Path(dir, "b.jpg"))))];
      var o := Commit(write, files, items, faults);
      !o.ok && Path(dir, ".a.xmp.tmp") !in o.files
  {
    var a, b := Item("a", Media(Some(Path(dir, "a.jpg")))), Item("b", Media(Some(Path(dir, "b.jpg"))));
    NamedByStem(dir, "a", "jpg");
    NamedByStem(dir, "b", "jpg");
    assert "a" + "." + "jpg" == "a.jpg" && "a" + ".xmp" == "a.xmp" && "." + "a.xmp" + ".tmp" == ".a.xmp.tmp";
    assert "b" + "." + "jpg" == "b.jpg" && "b" + ".xmp" == "b.xmp";
    assert "a.xmp"[0] != "b.xmp"[0];
    WrittenStagingIsLost(write, files, a, b, faults, Path(dir, "a.xmp"));
  }

  /** The other way: a refused write leaves a temporary file where there was none. */
  lemma RefusedWriteLeavesStagedName(write: Writer, files: Files, item: Item, faults: Faults, rest: Bytes)
    requires SidecarPath(item.target).Some? && faults.readOk(0) && faults.attempt(0) == Refused(Some(rest))
    ensures Commit(write, files, [item], faults)
         == Outcome(files[StagingPath(SidecarPath(item.target).value) := rest], [], false)
  {
    assert Blocked([item], faults, 0);
    assert [item][..0] == [];
  }

  // ---- What the cache may claim

  predicate DistinctSidecars(items: seq<Item>) {
    forall i, j :: 0 <= i < j < |items| && SidecarPath(items[i].target).Some? ==>
      SidecarPath(items[i].target) != SidecarPath(items[j].target)
  }

  /** A sidecar holds the edit of the last item that names it. */
  lemma {:induction false} LastWriterWins(write: Writer, files: Files, items: seq<Item>, i: nat)
    requires i < |items| && SidecarPath(items[i].target).Some?
    requires forall j :: i < j < |items| ==> SidecarPath(items[j].target) != SidecarPath(items[i].target)
    ensures var p := SidecarPath(items[i].target).value;
      Lookup(Advance(write, files, items).0, p) == Some(write(items[i], Lookup(Advance(write, files, items[..i]).0, p)))
    decreases |items|
  {
    var n := |items| - 1;
    if i < n {
      assert items[..n][..i] == items[..i];
      LastWriterWins(write, files, items[..n], i);
      if SidecarPath(items[n].target).Some? {
        SidecarIsNeverStaging(items[i].target, SidecarPath(items[n].target).value);
      }
    }
  }

  /** A write phase changes nothing but the sidecars it names and their staging names. */
  lemma {:induction false} Untouched(write: Writer, files: Files, items: seq<Item>, p: Path)
    requires !Names(items, p) && !Stages(items, p)
    ensures Lookup(Advance(write, files, items).0, p) == Lookup(files, p)
  {
    if items != [] {
      var n := |items| - 1;
      StagesPrefix(items, n, p);
      NamesAppend(items, p);
      Untouched(write, files, items[..n], p);
      assert SidecarPath(items[n].target).Some? ==> StagingPath(SidecarPath(items[n].target).value) != p;
    }
  }

  /** The stored payloads are a prefix of the request; if any sidecar could not be written nothing
      is stored; and if the sidecars are distinct every stored edit is in its file, applied to the
      bytes the file held before the request. */
  lemma CacheNeverAhead(write: Writer, files: Files, items: seq<Item>, faults: Faults, i: nat)
    ensures var o := Commit(write, files, items, faults);
      && o.stored <= items && (o.ok ==> o.stored == items)
      && ((exists k :: 0 <= k < |items| && Blocked(items, faults, k)) ==> o.stored == [] && !o.ok)
      && (DistinctSidecars(items) && i < |o.stored| && SidecarPath(items[i].target).Some? ==>
            var p := SidecarPath(items[i].target).value;
            Lookup(o.files, p) == Some(write(items[i], Lookup(files, p))))
  {
    var o := Commit(write, files, items, faults);
    if DistinctSidecars(items) && i < |o.stored| && SidecarPath(items[i].target).Some? {
      LastWriterWins(write, files, items, i);
      forall j | 0 <= j < i ensures SidecarPath(items[..i][j].target) != SidecarPath(items[i].target) {
        assert items[..i][j] == items[j];
      }
      NamedIsNotStaged(items[..i], items[i].target, SidecarPath(items[i].target).value);
      Untouched(write, files, items[..i], SidecarPath(items[i].target).value);
    }
  }

  /** Two files that differ only in their extension share a sidecar. */
  lemma SharedSidecar(dir: string, stem: string, a: string, b: string)
    requires stem != "" && '.' !in a && '.' !in b
    ensures SidecarPath(Media(Some(Path(dir, stem + "." + a)))) == SidecarPath(Media(Some(Path(dir, stem + "." + b))))
  {
    StemOf(stem, a);
    StemOf(stem, b);
  }

  lemma NamedByStem(dir: string, stem: string, ext: string)
    requires stem != "" && '.' !in ext
    ensures SidecarPath(Media(Some(Path(dir, stem + "." + ext)))) == Some(Path(dir, stem + ".xmp"))
  {
    StemOf(stem, ext);
  }

  lemma {:induction false} StemOf(stem: string, ext: string)
    requires stem != "" && '.' !in ext
    ensures LastDot(stem + "." + ext) == Some(|stem|)
    ensures Stem(stem + "." + ext) == stem
  {
    var name := stem + "." + ext;
    if ext != "" {
      assert name[|name| - 1] == ext[|ext| - 1];
      assert name[..|name| - 1] == stem + "." + ext[..|ext| - 1];
      StemOf(stem, ext[..|ext| - 1]);
    }
    assert name[..|stem|] == stem;
  }

  // ---- What a request achieves

  /** Every sidecar of the request could be captured and written. */
  predicate AllWritten(items: seq<Item>, faults: Faults) {
    forall k :: 0 <= k < |items| && SidecarPath(items[k].target).Some? ==> faults.readOk(k) && faults.attempt(k).Landed?
  }

  lemma NoneBlockedIff(items: seq<Item>, faults: Faults)
    ensures FirstBlocked(items, faults, 0) == |items| <==> AllWritten(items, faults)
  {
    if FirstBlocked(items, faults, 0) == |items| {
      forall k | 0 <= k < |items| && SidecarPath(items[k].target).Some?
        ensures faults.readOk(k) && faults.attempt(k).Landed?
      {
        assert !Blocked(items, faults, k);
      }
    }
  }

  /** A request succeeds exactly when every sidecar is written and every store succeeds. Item `k` is
      stored exactly when every sidecar is written and the stores up to its own succeed, in the order
      of the request; and once every sidecar is written they stay, whatever the stores do. */
  lemma RequestStoresExactly(write: Writer, files: Files, items: seq<Item>, faults: Faults, k: nat)
    ensures var o := Commit(write, files, items, faults);
      && (o.ok <==> AllWritten(items, faults) && forall i :: 0 <= i < |items| ==> faults.storeOk(i))
      && (k < |o.stored| <==>
            k < |items| && AllWritten(items, faults) && forall i :: 0 <= i <= k ==> faults.storeOk(i))
      && (k < |o.stored| ==> o.stored[k] == items[k])
      && (AllWritten(items, faults) ==> o.files == Advance(write, files, items).0)
  {
    NoneBlockedIff(items, faults);
    var j := FirstUnstored(faults, |items|, 0);
    assert j < |items| ==> !faults.storeOk(j);
  }

  lemma {:induction false} NoDotNoExtension(name: string)
    requires '.' !in name
    ensures LastDot(name).None?
  {
    if name != "" {
      assert name[|name| - 1] in name;
      NoDotNoExtension(name[..|name| - 1]);
    }
  }

  /** A name without an extension is kept whole. */
  lemma SidecarOfBareName(dir: string, name: string)
    requires '.' !in name
    ensures SidecarPath(Media(Some(Path(dir, name)))) == Some(Path(dir, name + ".xmp"))
  {
    NoDotNoExtension(name);
  }

  lemma {:induction false} OnlyLeadingDot(name: string)
    requires '.' !in name
    ensures LastDot("." + name) == Some(0)
  {
    var dotted := "." + name;
    if name != "" {
      assert dotted[|dotted| - 1] == name[|name| - 1] && name[|name| - 1] in name;
      assert dotted[..|dotted| - 1] == "." + name[..|name| - 1];
      OnlyLeadingDot(name[..|name| - 1]);
    }
  }

  /** So is a hidden file's: a leading dot starts no extension. */
  lemma SidecarOfHiddenName(dir: string, name: string)
    requires '.' !in name
    ensures SidecarPath(Media(Some(Path(dir, "." + name)))) == Some(Path(dir, "." + name + ".xmp"))
  {
    OnlyLeadingDot(name);
  }

  /** Albums have sidecars of their own, one per directory. A media file shares one only if its name
      without the extension is `.albuminfo`; an item without a file has none. */
  lemma AlbumSidecars(dir: string, other: string, p: Path)
    ensures SidecarPath(Album(dir)) == SidecarPath(Album(other)) <==> dir == other
    ensures SidecarPath(Media(Some(p))) == SidecarPath(Album(dir)) <==> p.dir == dir && Stem(p.name) == ".albuminfo"
    ensures SidecarPath(Media(None)) == None
  {
    var stem := Stem(p.name);
    assert ".albuminfo" + ".xmp" == ".albuminfo.xmp";
    if stem + ".xmp" == ".albuminfo.xmp" {
      assert stem == (stem + ".xmp")[..|stem|];
    }
  }

  /** Items without a file go straight to the store: no file is touched. */
  lemma {:induction false} PathlessIsOnlyStored(write: Writer, files: Files, items: seq<Item>)
    requires forall i :: 0 <= i < |items| ==> items[i].target == Media(None)
    ensures Advance(write, files, items) == (files, [])
  {
    if items != [] {
      PathlessIsOnlyStored(write, files, items[..|items| - 1]);
    }
  }
}
