/** What one rotation leaves at every place of the log directory, wherever it fails. */
module RotatePlaces {
  import opened Bytes
  import opened RotateLog

  /** The rename that stops the loop from `i` down: the largest existing backup whose rename fails, 0 if there is none. */
  function Blocked(files: Files, i: int, fails: set<int>): nat
    decreases i
  {
    if i < 1 then 0 else if Backup(i) in files && i in fails then i else Blocked(files, i - 1, fails)
  }

  lemma {:induction false} BlockedIff(files: Files, i: int, fails: set<int>, j: nat)
    ensures j == Blocked(files, i, fails) <==>
      && (j > 0 ==> j <= i && Backup(j) in files && j in fails)
      && forall k | j < k <= i && Backup(k) in files :: k !in fails
    decreases i
  {
    if i >= 1 {
      BlockedIff(files, i - 1, fails, j);
    }
  }

  lemma {:induction false} SameBlocked(f: Files, g: Files, i: int, fails: set<int>)
    requires forall k | 1 <= k <= i :: Backup(k) in f <==> Backup(k) in g
    ensures Blocked(f, i, fails) == Blocked(g, i, fails)
    decreases i
  {
    if i >= 1 {
      SameBlocked(f, g, i - 1, fails);
    }
  }

  /** What the rename loop from `i` down leaves at `p` if it stops at `j`. */
  function ShiftedDownTo(files: Files, i: int, j: nat, p: Path): bytes {
    match p
    case Current => Content(files, p)
    case Backup(k) =>
      if j + 1 < k <= i + 1 then Content(files, Backup(k - 1)) else if k == j + 1 <= i then [] else Content(files, p)
  }

  lemma {:induction false} ShiftStops(files: Files, i: int, fails: set<int>, p: Path)
    requires Content(files, Backup(i + 1)) == []
    ensures var (shifted, ok) := ShiftUp(files, i, fails);
      var j := Blocked(files, i, fails);
      (ok <==> j == 0) && Content(shifted, p) == ShiftedDownTo(files, i, j, p) && (Current in shifted <==> Current in files)
    decreases i
  {
    if i >= 1 {
      if Backup(i) !in files {
        ShiftStops(files, i - 1, fails, p);
      } else if i !in fails {
        ShiftStops(Rename(files, Backup(i), Backup(i + 1)), i - 1, fails, p);
        OneUp(files, i, fails, p);
      }
    }
  }

  /** One rename more: what stops the loop and where the contents go. */
  lemma OneUp(files: Files, i: int, fails: set<int>, p: Path)
    requires i >= 1 && Backup(i) in files && i !in fails && Content(files, Backup(i + 1)) == []
    ensures var moved, j := Rename(files, Backup(i), Backup(i + 1)), Blocked(files, i, fails);
      && Content(moved, Backup(i)) == [] && (Current in moved <==> Current in files)
      && Blocked(moved, i - 1, fails) == j
      && ShiftedDownTo(moved, i - 1, j, p) == ShiftedDownTo(files, i, j, p)
  {
    var moved, j := Rename(files, Backup(i), Backup(i + 1)), Blocked(files, i, fails);
    SameBlocked(moved, files, i - 1, fails);
    BlockedIff(files, i - 1, fails, j);
    assert forall q :: q != Backup(i) && q != Backup(i + 1) ==> Content(moved, q) == Content(files, q);
  }

  /** Where what the rename loop leaves at `p` was before; the oldest place is overwritten, removed, or stays if the
      removal failed. */
  function ShiftedPlace(cfg: Config, files: Files, os: Os, p: Path): bytes {
    var n, j := cfg.maxBackups, Blocked(files, cfg.maxBackups - 1, os.renameFails);
    match p
    case Current => Content(files, p)
    case Backup(k) =>
      if j + 1 < k < n || (j + 1 < k == n && Backup(n - 1) in files) then Content(files, Backup(k - 1))
      else if k == n then (if os.removeFails then Content(files, p) else [])
      else if k == j + 1 < n then []
      else Content(files, p)
  }

  lemma ShiftLeaves(cfg: Config, files: Files, os: Os, p: Path)
    ensures var (shifted, ok) := Shifted(cfg, files, os);
      && (ok <==> Blocked(files, cfg.maxBackups - 1, os.renameFails) == 0)
      && Content(shifted, p) == ShiftedPlace(cfg, files, os, p) && (Current in shifted <==> Current in files)
  {
    if cfg.maxBackups >= 1 && !os.removeFails {
      RemovedLeaves(cfg, files, os, p);
    } else if cfg.maxBackups >= 2 {
      OverwrittenLeaves(cfg, files, os, p);
    }
  }

  lemma RemovedLeaves(cfg: Config, files: Files, os: Os, p: Path)
    requires cfg.maxBackups >= 1 && !os.removeFails
    ensures var (shifted, ok) := Shifted(cfg, files, os);
      && (ok <==> Blocked(files, cfg.maxBackups - 1, os.renameFails) == 0)
      && Content(shifted, p) == ShiftedPlace(cfg, files, os, p) && (Current in shifted <==> Current in files)
  {
    var n := cfg.maxBackups;
    RemovedPlace(files, n, os.renameFails, p);
    ShiftStops(files - {Backup(n)}, n - 1, os.renameFails, p);
    assert ShiftedPlace(cfg, files, os, p) == PlaceWithout(files, n, Blocked(files, n - 1, os.renameFails), p);
  }

  /** What is left at `p` when the oldest place was free or is overwritten. */
  function PlaceWithout(files: Files, n: int, j: nat, p: Path): bytes {
    match p
    case Current => Content(files, p)
    case Backup(k) =>
      if j + 1 < k <= n then Content(files, Backup(k - 1)) else if k == n || k == j + 1 < n then [] else Content(files, p)
  }

  lemma RemovedPlace(files: Files, n: nat, fails: set<int>, p: Path)
    requires n >= 1
    ensures var j, removed := Blocked(files, n - 1, fails), files - {Backup(n)};
      && Blocked(removed, n - 1, fails) == j && Content(removed, Backup(n)) == []
      && ShiftedDownTo(removed, n - 1, j, p) == PlaceWithout(files, n, j, p)
      && (Current in removed <==> Current in files)
  {
    SameBlocked(files - {Backup(n)}, files, n - 1, fails);
  }

  lemma OverwrittenLeaves(cfg: Config, files: Files, os: Os, p: Path)
    requires cfg.maxBackups >= 2 && os.removeFails
    ensures var (shifted, ok) := Shifted(cfg, files, os);
      && (ok <==> Blocked(files, cfg.maxBackups - 1, os.renameFails) == 0)
      && Content(shifted, p) == ShiftedPlace(cfg, files, os, p) && (Current in shifted <==> Current in files)
  {
    var n, fails := cfg.maxBackups, os.renameFails;
    if Backup(n - 1) !in files {
      ShiftStops(files, n - 2, fails, p);
    } else if n - 1 !in fails {
      var removed := files - {Backup(n)};
      assert ShiftUp(files, n - 1, fails) == ShiftUp(removed, n - 1, fails) by {
        assert Rename(files, Backup(n - 1), Backup(n)) == Rename(removed, Backup(n - 1), Backup(n));
      }
      RemovedPlace(files, n, fails, p);
      ShiftStops(removed, n - 1, fails, p);
      BlockedIff(files, n - 2, fails, Blocked(files, n - 2, fails));
      assert ShiftedPlace(cfg, files, os, p) == PlaceWithout(files, n, Blocked(files, n - 1, fails), p);
    }
  }

  /** No rename of the loop fails, and neither does that of the current file. */
  predicate AllRenamed(cfg: Config, files: Files, os: Os) {
    && (forall k | 1 <= k < cfg.maxBackups && Backup(k) in files :: k !in os.renameFails)
    && (Current in files ==> 0 !in os.renameFails)
  }

  /** What a rotation that could close the old handle leaves at `p`. */
  function PlaceAfter(cfg: Config, files: Files, os: Os, p: Path): bytes {
    if AllRenamed(cfg, files, os) && p == Current then []
    else if AllRenamed(cfg, files, os) && p == Backup(1) && Current in files then Content(files, Current)
    else ShiftedPlace(cfg, files, os, p)
  }

  /** A rotation succeeds exactly if the old handle closes, every rename works and the new file opens; then the new file is
      empty and open. If it fails the handle stays closed. Every place holds what `PlaceAfter` says in both cases. */
  lemma RotateLeaves(cfg: Config, s: Log, os: Os)
    ensures var (s', ok) := Rotate(cfg, s, os);
      && (ok <==> s.open && !os.closeFails && AllRenamed(cfg, s.files, os) && !os.openFails)
      && s'.open == ok && s'.size == (if ok then 0 else s.size)
      && (!s.open || os.closeFails ==> s'.files == s.files)
      && (s.open && !os.closeFails ==> forall p :: Content(s'.files, p) == PlaceAfter(cfg, s.files, os, p))
  {
    ShiftLeaves(cfg, s.files, os, Current);
    BlockedIff(s.files, cfg.maxBackups - 1, os.renameFails, 0);
    if s.open && !os.closeFails {
      var s' := Rotate(cfg, s, os).0;
      forall p ensures Content(s'.files, p) == PlaceAfter(cfg, s.files, os, p) {
        ShiftLeaves(cfg, s.files, os, p);
      }
    }
  }

  /** How much of a record reaches the disk: nothing if a needed rotation fails or the handle is closed, otherwise what the
      write takes. Exactly when it reaches it whole. */
  lemma TakenIs(cfg: Config, s: Log, p: bytes, os: Os)
    ensures var ready := s.open && (s.size + |p| > cfg.maxSize ==>
                           !os.closeFails && AllRenamed(cfg, s.files, os) && !os.openFails);
      && |Taken(cfg, s, p, os)| == (if !ready then 0 else if os.takes < |p| then os.takes else |p|)
      && Taken(cfg, s, p, os) == p[..|Taken(cfg, s, p, os)|]
  {
    RotateLeaves(cfg, s, os);
  }
}
