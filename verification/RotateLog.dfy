/** What `RotateWriter` does to the log directory, and what stays on disk over whole runs,
    with file operations that may fail at any point. */
module RotateLog {
  import opened Bytes

  /** The current file or the numbered backup. */
  datatype Path = Current | Backup(i: int)

  type Files = map<Path, bytes>

  datatype Config = Config(maxSize: int, maxBackups: int)

  /** The directory, the cached size of the current file, and whether the handle on it is open. */
  datatype Log = Log(files: Files, size: int, open: bool)

  /** What the operating system does during one call: which operations fail (a rename is named by the
      index of its source, 0 for the current file) and how many bytes a write takes. */
  datatype Os = Os(closeFails: bool, removeFails: bool, renameFails: set<int>, openFails: bool, takes: nat)

  function Content(files: Files, p: Path): bytes {
    if p in files then files[p] else []
  }

  function Rename(files: Files, src: Path, dst: Path): Files
    requires src in files
  {
    (files - {src})[dst := files[src]]
  }

  /** The renames i -> i+1, ..., 1 -> 2 of existing backups, stopped by the first failure. */
  function ShiftUp(files: Files, i: int, renameFails: set<int>): (Files, bool)
    decreases i
  {
    if i < 1 then (files, true)
    else if Backup(i) !in files then ShiftUp(files, i - 1, renameFails)
    else if i in renameFails then (files, false)
    else ShiftUp(Rename(files, Backup(i), Backup(i + 1)), i - 1, renameFails)
  }

  /** After the attempt to remove the oldest backup, whose failure is ignored. */
  function Cleared(cfg: Config, files: Files, os: Os): Files {
    if os.removeFails then files else files - {Backup(cfg.maxBackups)}
  }

  function Shifted(cfg: Config, files: Files, os: Os): (Files, bool) {
    ShiftUp(Cleared(cfg, files, os), cfg.maxBackups - 1, os.renameFails)
  }

  /** The current file moves to place 1 and a new one is created. */
  function Restart(files: Files, size: int, os: Os): (Log, bool) {
    if Current in files && 0 in os.renameFails then (Log(files, size, false), false)
    else
      var moved := if Current in files then Rename(files, Current, Backup(1)) else files;
      if os.openFails then (Log(moved, size, false), false)
      else (Log(moved[Current := []], 0, true), true)
  }

  function Rotate(cfg: Config, s: Log, os: Os): (Log, bool) {
    if !s.open || os.closeFails then (s.(open := false), false)
    else
      var (shifted, ok) := Shifted(cfg, s.files, os);
      if !ok then (Log(shifted, s.size, false), false) else Restart(shifted, s.size, os)
  }

  predicate MustRotate(cfg: Config, s: Log, p: bytes) {
    s.size + |p| > cfg.maxSize
  }

  /** The state in which the record is written, and whether a rotation on the way failed. */
  function Ready(cfg: Config, s: Log, p: bytes, os: Os): (Log, bool) {
    if MustRotate(cfg, s, p) then Rotate(cfg, s, os) else (s, true)
  }

  function Append(s: Log, p: bytes): Log {
    s.(files := s.files[Current := Content(s.files, Current) + p], size := s.size + |p|)
  }

  /** How much of `p` reaches the disk. */
  function Taken(cfg: Config, s: Log, p: bytes, os: Os): bytes {
    var (ready, ok) := Ready(cfg, s, p, os);
    if !ok || !ready.open then [] else if os.takes < |p| then p[..os.takes] else p
  }

  function Write(cfg: Config, s: Log, p: bytes, os: Os): Log {
    var (ready, ok) := Ready(cfg, s, p, os);
    if !ok || !ready.open then ready else Append(ready, Taken(cfg, s, p, os))
  }

  /** `NewRotateWriter` on an existing directory: the current file is created or appended to. */
  function Open(files: Files): Log {
    Log(files[Current := Content(files, Current)], |Content(files, Current)|, true)
  }

  // ---------------------------------------------------------------- what is retained

  /** How many backups a rotation keeps: a limit below 1 still keeps one. */
  function Kept(cfg: Config): nat {
    if cfg.maxBackups < 1 then 1 else cfg.maxBackups
  }

  /** Backups k, ..., 1 in writing order; missing ones count as empty. */
  function Older(files: Files, k: nat): bytes {
    if k == 0 then [] else Content(files, Backup(k)) + Older(files, k - 1)
  }

  function Retained(files: Files, n: nat): bytes {
    Older(files, n) + Content(files, Current)
  }

  predicate IsSuffix(a: bytes, b: bytes) {
    |a| <= |b| && b[|b| - |a|..] == a
  }

  lemma OlderFrame(f: Files, g: Files, k: nat)
    requires forall i | 1 <= i <= k :: Content(f, Backup(i)) == Content(g, Backup(i))
    ensures Older(f, k) == Older(g, k)
  {}

  /** Moving a backup into the next, empty place changes nothing that is retained. */
  lemma {:induction false} MoveUp(files: Files, i: nat, k: nat)
    requires 1 <= i < k && Backup(i) in files && Content(files, Backup(i + 1)) == []
    ensures Older(Rename(files, Backup(i), Backup(i + 1)), k) == Older(files, k)
    decreases k
  {
    var moved := Rename(files, Backup(i), Backup(i + 1));
    if k == i + 1 {
      OlderFrame(moved, files, i - 1);
      assert Older(moved, k) == files[Backup(i)] + ([] + Older(moved, i - 1));
      assert Older(files, k) == [] + (files[Backup(i)] + Older(files, i - 1));
    } else {
      MoveUp(files, i, k - 1);
    }
  }

  /** The rename loop, even when it stops half way, keeps every byte in order once the place above it is free,
      and it touches neither the current file nor places outside its range. */
  lemma {:induction false} ShiftKeepsOrder(files: Files, i: nat, fails: set<int>, k: nat)
    requires i < k && Content(files, Backup(i + 1)) == []
    ensures var (shifted, ok) := ShiftUp(files, i, fails);
      && Older(shifted, k) == Older(files, k)
      && Content(shifted, Current) == Content(files, Current) && (Current in shifted <==> Current in files)
      && (ok ==> Content(shifted, Backup(1)) == [])
    decreases i
  {
    if i >= 1 {
      if Backup(i) !in files {
        ShiftKeepsOrder(files, i - 1, fails, k);
      } else if i !in fails {
        MoveUp(files, i, k);
        ShiftKeepsOrder(Rename(files, Backup(i), Backup(i + 1)), i - 1, fails, k);
      }
    }
  }

  /** The current file becomes backup 1; if that place was free nothing retained changes. */
  lemma {:induction false} MoveCurrent(files: Files, k: nat)
    requires k >= 1 && Current in files && Content(files, Backup(1)) == []
    ensures Older(Rename(files, Current, Backup(1)), k) == Retained(files, k)
    decreases k
  {
    var moved := Rename(files, Current, Backup(1));
    if k == 1 {
      assert Older(moved, 1) == files[Current] + Older(moved, 0);
      assert Older(files, 1) == [] + Older(files, 0);
    } else {
      MoveCurrent(files, k - 1);
      assert Content(files, Backup(k)) + (Older(files, k - 1) + files[Current])
          == (Content(files, Backup(k)) + Older(files, k - 1)) + files[Current];
    }
  }

  /** Removing the oldest backup drops exactly its bytes. */
  lemma RemoveOldest(files: Files, n: nat)
    requires n >= 1
    ensures Retained(files, n) == Content(files, Backup(n)) + Retained(files - {Backup(n)}, n)
  {
    var removed := files - {Backup(n)};
    OlderFrame(files, removed, n - 1);
    assert Older(removed, n) == [] + Older(files, n - 1);
    assert Older(files, n) + Content(files, Current)
        == Content(files, Backup(n)) + (Older(files, n - 1) + Content(files, Current));
  }

  // ---------------------------------------------------------------- what one call loses

  /** Whether a rotation drops the oldest kept backup: it is removed, or, where the removal fails or no backup is asked
      for, the file below it is renamed onto it. */
  predicate DropsOldest(cfg: Config, s: Log, os: Os) {
    && s.open && !os.closeFails
    && if cfg.maxBackups >= 1 && !os.removeFails then true
       else if cfg.maxBackups >= 2 then Backup(cfg.maxBackups - 1) in s.files && cfg.maxBackups - 1 !in os.renameFails
       else Current in s.files && 0 !in os.renameFails
  }

  /** The bytes that a rotation removes from the directory. */
  function Dropped(cfg: Config, s: Log, os: Os): bytes {
    if DropsOldest(cfg, s, os) then Content(s.files, Backup(Kept(cfg))) else []
  }

  /** The rename loop loses the oldest backup if the file below is renamed onto it, and nothing else. */
  lemma ShiftLoses(files: Files, n: nat, fails: set<int>)
    requires n >= 1
    ensures var (shifted, ok) := ShiftUp(files, n - 1, fails);
      var lost := if n > 1 && Backup(n - 1) in files && n - 1 !in fails then Content(files, Backup(n)) else [];
      && Retained(files, n) == lost + Retained(shifted, n)
      && (Current in shifted <==> Current in files)
      && (ok && n > 1 ==> Content(shifted, Backup(1)) == [])
  {
    var shifted := ShiftUp(files, n - 1, fails).0;
    assert [] + Retained(shifted, n) == Retained(shifted, n);
    if n > 1 {
      if Backup(n - 1) !in files {
        ShiftKeepsOrder(files, n - 2, fails, n);
      } else if n - 1 !in fails {
        var removed := files - {Backup(n)};
        assert Rename(files, Backup(n - 1), Backup(n)) == Rename(removed, Backup(n - 1), Backup(n));
        assert ShiftUp(files, n - 1, fails) == ShiftUp(removed, n - 1, fails);
        RemoveOldest(files, n);
        ShiftKeepsOrder(removed, n - 1, fails, n);
      }
    }
  }

  lemma ClearedLoses(cfg: Config, files: Files, os: Os)
    ensures var lost := if cfg.maxBackups >= 1 && !os.removeFails then Content(files, Backup(Kept(cfg))) else [];
      Retained(files, Kept(cfg)) == lost + Retained(Cleared(cfg, files, os), Kept(cfg))
  {
    if cfg.maxBackups >= 1 && !os.removeFails {
      RemoveOldest(files, Kept(cfg));
    } else {
      OlderFrame(files, Cleared(cfg, files, os), Kept(cfg));
    }
  }

  /** Both together: the oldest backup goes, or nothing. */
  lemma ShiftedLoses(cfg: Config, files: Files, os: Os)
    ensures var n := Kept(cfg); var (shifted, ok) := Shifted(cfg, files, os);
      && Retained(files, n) == DroppedInShift(cfg, files, os) + Retained(shifted, n)
      && (Current in shifted <==> Current in files)
      && (ok && n > 1 ==> Content(shifted, Backup(1)) == [])
      && (n == 1 ==> ok && Content(shifted, Backup(1)) == if cfg.maxBackups == 1 && !os.removeFails then [] else Content(files, Backup(1)))
  {
    var n, cleared := Kept(cfg), Cleared(cfg, files, os);
    var kept := Retained(Shifted(cfg, files, os).0, n);
    ClearedLoses(cfg, files, os);
    if cfg.maxBackups >= 1 {
      ShiftLoses(cleared, n, os.renameFails);
      assert [] + kept == kept;
    }
  }

  function DroppedInShift(cfg: Config, files: Files, os: Os): bytes {
    if (cfg.maxBackups >= 1 && !os.removeFails) ||
       (cfg.maxBackups >= 2 && Backup(cfg.maxBackups - 1) in files && cfg.maxBackups - 1 !in os.renameFails)
    then Content(files, Backup(Kept(cfg))) else []
  }

  /** Moving the current file away loses what place 1 held. */
  lemma RestartLoses(files: Files, size: int, os: Os, n: nat)
    requires n >= 1 && (n > 1 ==> Content(files, Backup(1)) == [])
    ensures var lost := if Current in files && 0 !in os.renameFails then Content(files, Backup(1)) else [];
      Retained(files, n) == lost + Retained(Restart(files, size, os).0.files, n)
  {
    var after := Restart(files, size, os).0.files;
    if Current in files && 0 !in os.renameFails {
      var moved := Rename(files, Current, Backup(1));
      MovedLoses(files, n);
      OlderFrame(moved, moved[Current := []], n);
    } else {
      OlderFrame(files, after, n);
      assert [] + Retained(after, n) == Retained(after, n);
    }
  }

  lemma MovedLoses(files: Files, n: nat)
    requires n >= 1 && (n > 1 ==> Content(files, Backup(1)) == []) && Current in files
    ensures Retained(files, n) == Content(files, Backup(1)) + Retained(Rename(files, Current, Backup(1)), n)
  {
    var moved := Rename(files, Current, Backup(1));
    assert Retained(moved, n) == Older(moved, n) + [] == Older(moved, n);
    if n == 1 {
      assert Older(moved, 1) == files[Current] + Older(moved, 0) == files[Current];
      assert Older(files, 1) == Content(files, Backup(1)) + Older(files, 0) == Content(files, Backup(1));
    } else {
      MoveCurrent(files, n);
      assert [] + Older(moved, n) == Older(moved, n);
    }
  }

  /** Whatever fails during a rotation: what was retained before is what it drops followed by what is retained after. */
  lemma RotateLosesOldest(cfg: Config, s: Log, os: Os)
    ensures Retained(s.files, Kept(cfg)) == Dropped(cfg, s, os) + Retained(Rotate(cfg, s, os).0.files, Kept(cfg))
  {
    var n := Kept(cfg);
    if !s.open || os.closeFails {
      assert [] + Retained(s.files, n) == Retained(s.files, n);
    } else {
      var (shifted, ok) := Shifted(cfg, s.files, os);
      ShiftedLoses(cfg, s.files, os);
      if ok {
        RestartLoses(shifted, s.size, os, n);
        DropOnce(DroppedInShift(cfg, s.files, os), if Current in shifted && 0 !in os.renameFails then Content(shifted, Backup(1)) else [],
                 Retained(Restart(shifted, s.size, os).0.files, n));
      }
    }
  }

  lemma DropOnce(a: bytes, b: bytes, rest: bytes)
    ensures a + (b + rest) == (a + b) + rest
    ensures b == [] ==> a + b == a
    ensures a == [] ==> a + b == b
  {}

  lemma DroppedThenSuffix(before: bytes, lost: bytes, after: bytes)
    requires before == lost + after
    ensures IsSuffix(after, before)
  {}

  /** In particular what is retained afterwards is a suffix of what was retained before. */
  lemma RotateRetainsSuffix(cfg: Config, s: Log, os: Os)
    ensures IsSuffix(Retained(Rotate(cfg, s, os).0.files, Kept(cfg)), Retained(s.files, Kept(cfg)))
  {
    RotateLosesOldest(cfg, s, os);
    DroppedThenSuffix(Retained(s.files, Kept(cfg)), Dropped(cfg, s, os), Retained(Rotate(cfg, s, os).0.files, Kept(cfg)));
  }

  /** The bytes that a write removes from the directory: those its rotation drops. */
  function DroppedBy(cfg: Config, s: Log, e: Event): bytes {
    if e.Wrote? && MustRotate(cfg, s, e.p) then Dropped(cfg, s, e.os) else []
  }

  /** One write: what was there and what reached the disk is what it drops and what is there now. */
  lemma WriteLosesOldest(cfg: Config, s: Log, p: bytes, os: Os)
    ensures Retained(s.files, Kept(cfg)) + Taken(cfg, s, p, os)
         == DroppedBy(cfg, s, Wrote(p, os)) + Retained(Write(cfg, s, p, os).files, Kept(cfg))
  {
    var n, taken, lost := Kept(cfg), Taken(cfg, s, p, os), DroppedBy(cfg, s, Wrote(p, os));
    var ready := Ready(cfg, s, p, os).0.files;
    if MustRotate(cfg, s, p) {
      RotateLosesOldest(cfg, s, os);
    } else {
      assert [] + Retained(ready, n) == Retained(ready, n);
    }
    assert Retained(s.files, n) == lost + Retained(ready, n);
    Associate(lost, Retained(ready, n), taken);
    AppendToCurrent(ready, taken, n);
    if Write(cfg, s, p, os).files == ready {
      assert Retained(ready, n) + [] == Retained(ready, n);
    }
  }

  /** One write retains a suffix of what was there followed by the bytes it put on disk, which are the beginning of the
      record. */
  lemma WriteRetainsSuffix(cfg: Config, s: Log, p: bytes, os: Os)
    ensures IsSuffix(Retained(Write(cfg, s, p, os).files, Kept(cfg)), Retained(s.files, Kept(cfg)) + Taken(cfg, s, p, os))
    ensures Taken(cfg, s, p, os) <= p
  {
    WriteLosesOldest(cfg, s, p, os);
    DroppedThenSuffix(Retained(s.files, Kept(cfg)) + Taken(cfg, s, p, os), DroppedBy(cfg, s, Wrote(p, os)),
                      Retained(Write(cfg, s, p, os).files, Kept(cfg)));
  }

  lemma AppendToCurrent(files: Files, p: bytes, k: nat)
    ensures var files' := files[Current := Content(files, Current) + p];
      Older(files', k) == Older(files, k) && Retained(files', k) == Retained(files, k) + p
  {
    var files' := files[Current := Content(files, Current) + p];
    OlderFrame(files, files', k);
    assert Older(files, k) + (Content(files, Current) + p) == (Older(files, k) + Content(files, Current)) + p;
  }

  // ---------------------------------------------------------------- whole runs

  /** A write, the closing of the writer, or a new writer opened on the directory the last one left behind. */
  datatype Event = Wrote(p: bytes, os: Os) | Shut | Reopened

  function Apply(cfg: Config, s: Log, e: Event): Log {
    match e
    case Wrote(p, os) => Write(cfg, s, p, os)
    case Shut => s.(open := false)
    case Reopened => Open(s.files)
  }

  function Run(cfg: Config, s: Log, es: seq<Event>): Log {
    if es == [] then s else Apply(cfg, Run(cfg, s, es[..|es| - 1]), es[|es| - 1])
  }

  /** All bytes that reached the disk, in order. */
  function Accepted(cfg: Config, s: Log, es: seq<Event>): bytes {
    if es == [] then []
    else Accepted(cfg, s, es[..|es| - 1]) + PutBy(cfg, Run(cfg, s, es[..|es| - 1]), es[|es| - 1])
  }

  function PutBy(cfg: Config, s: Log, e: Event): bytes {
    match e
    case Wrote(p, os) => Taken(cfg, s, p, os)
    case Shut => []
    case Reopened => []
  }

  /** All bytes that left the directory, in order. */
  function Lost(cfg: Config, s: Log, es: seq<Event>): bytes {
    if es == [] then []
    else Lost(cfg, s, es[..|es| - 1]) + DroppedBy(cfg, Run(cfg, s, es[..|es| - 1]), es[|es| - 1])
  }

  /** Over every run, with any failures and restarts, no byte is lost but those of the oldest kept backup that a rotation
      drops: the initial files and everything written are what was dropped, in order, and what is retained. */
  lemma {:induction false} RunRetainsExactly(cfg: Config, s: Log, es: seq<Event>)
    ensures Retained(s.files, Kept(cfg)) + Accepted(cfg, s, es) == Lost(cfg, s, es) + Retained(Run(cfg, s, es).files, Kept(cfg))
    decreases |es|
  {
    var k := Kept(cfg);
    var start := Retained(s.files, k);
    if es == [] {
      assert start + [] == start && [] + start == start;
    } else {
      var es', e := es[..|es| - 1], es[|es| - 1];
      RunRetainsExactly(cfg, s, es');
      var before := Run(cfg, s, es');
      ApplyLosesOldest(cfg, before, e);
      ExactStep(start, Accepted(cfg, s, es'), Lost(cfg, s, es'), Retained(before.files, k), PutBy(cfg, before, e),
                DroppedBy(cfg, before, e), Retained(Run(cfg, s, es).files, k));
    }
  }

  lemma ExactStep(start: bytes, sofar: bytes, lost: bytes, before: bytes, put: bytes, dropped: bytes, now: bytes)
    requires start + sofar == lost + before && before + put == dropped + now
    ensures start + (sofar + put) == (lost + dropped) + now
  {
    Associate(start, sofar, put);
    Associate(lost, before, put);
    Associate(lost, dropped, now);
  }

  lemma ApplyLosesOldest(cfg: Config, s: Log, e: Event)
    ensures Retained(s.files, Kept(cfg)) + PutBy(cfg, s, e) == DroppedBy(cfg, s, e) + Retained(Apply(cfg, s, e).files, Kept(cfg))
  {
    match e {
      case Wrote(p, os) => WriteLosesOldest(cfg, s, p, os);
      case _ =>
        var after := Retained(Apply(cfg, s, e).files, Kept(cfg));
        OlderFrame(s.files, Apply(cfg, s, e).files, Kept(cfg));
        assert after + [] == after && [] + after == after;
    }
  }

  /** Hence backup_n ++ ... ++ backup_1 ++ current is a suffix of the initial files followed by everything written. */
  lemma RunRetainsSuffix(cfg: Config, s: Log, es: seq<Event>)
    ensures IsSuffix(Retained(Run(cfg, s, es).files, Kept(cfg)), Retained(s.files, Kept(cfg)) + Accepted(cfg, s, es))
  {
    RunRetainsExactly(cfg, s, es);
    DroppedThenSuffix(Retained(s.files, Kept(cfg)) + Accepted(cfg, s, es), Lost(cfg, s, es),
                      Retained(Run(cfg, s, es).files, Kept(cfg)));
  }

  /** How often a write found its handle open and the file too full. */
  function Rotations(cfg: Config, s: Log, es: seq<Event>): nat {
    if es == [] then 0
    else
      var before, e := Run(cfg, s, es[..|es| - 1]), es[|es| - 1];
      Rotations(cfg, s, es[..|es| - 1]) + if e.Wrote? && before.open && MustRotate(cfg, before, e.p) then 1 else 0
  }

  /** A run without a rotation, whatever else fails, retains everything. */
  lemma {:induction false} UnrotatedRunKeepsAll(cfg: Config, s: Log, es: seq<Event>)
    requires Rotations(cfg, s, es) == 0
    ensures Retained(Run(cfg, s, es).files, Kept(cfg)) == Retained(s.files, Kept(cfg)) + Accepted(cfg, s, es)
  {
    RunRetainsExactly(cfg, s, es);
    NothingLost(cfg, s, es);
    var kept := Retained(Run(cfg, s, es).files, Kept(cfg));
    assert [] + kept == kept;
  }

  lemma {:induction false} NothingLost(cfg: Config, s: Log, es: seq<Event>)
    requires Rotations(cfg, s, es) == 0
    ensures Lost(cfg, s, es) == []
    decreases |es|
  {
    if es != [] {
      NothingLost(cfg, s, es[..|es| - 1]);
    }
  }

  /** Opening the log changes nothing at any place; only a missing current file is created. */
  lemma OpenKeepsEverything(files: Files)
    ensures var s := Open(files);
      && s.open && s.files.Keys == files.Keys + {Current} && s.size == |s.files[Current]|
      && forall q :: Content(s.files, q) == Content(files, q)
  {}

  /** The cached size is the real length of the current file whenever the handle is open. */
  predicate SizeIsReal(s: Log) {
    s.open ==> Current in s.files && s.size == |s.files[Current]|
  }

  lemma {:induction false} RunKeepsSize(cfg: Config, s: Log, es: seq<Event>)
    requires SizeIsReal(s)
    ensures SizeIsReal(Run(cfg, s, es))
    decreases |es|
  {
    if es != [] {
      RunKeepsSize(cfg, s, es[..|es| - 1]);
    }
  }

  /** A failed rotation is as final as closing the writer: until the log is reopened nothing is written any more. */
  lemma {:induction false} ClosedHandleWritesNothing(cfg: Config, s: Log, es: seq<Event>)
    requires !s.open && Reopened !in es
    ensures var s' := Run(cfg, s, es);
      !s'.open && s'.files == s.files && Accepted(cfg, s, es) == []
    decreases |es|
  {
    if es != [] {
      assert es[|es| - 1] in es;
      ClosedHandleWritesNothing(cfg, s, es[..|es| - 1]);
    }
  }

  // ---------------------------------------------------------------- without failures

  predicate Healthy(os: Os, p: bytes) {
    !os.closeFails && !os.removeFails && os.renameFails == {} && !os.openFails && os.takes >= |p|
  }

  /** Where the content at `p` comes from after one rotation: an exact shift by one. */
  function ShiftedAt(cfg: Config, files: Files, p: Path): bytes {
    match p
    case Current => []
    case Backup(i) =>
      if i == 1 then Content(files, Current)
      else if 1 < i <= cfg.maxBackups then Content(files, Backup(i - 1))
      else if i == cfg.maxBackups then []
      else Content(files, p)
  }

  /** What the rename loop from `i` down puts at `p`. */
  function UpOne(files: Files, i: int, p: Path): bytes {
    if p.Current? then Content(files, p)
    else if 1 < p.i <= i + 1 then Content(files, Backup(p.i - 1))
    else if p.i == 1 && i >= 1 then []
    else Content(files, p)
  }

  lemma {:induction false} ShiftUpAt(files: Files, i: int, p: Path)
    requires Content(files, Backup(i + 1)) == []
    ensures var (shifted, ok) := ShiftUp(files, i, {});
      ok && Content(shifted, p) == UpOne(files, i, p) && (Current in shifted <==> Current in files)
    decreases i
  {
    if i >= 1 {
      ShiftUpAt(if Backup(i) in files then Rename(files, Backup(i), Backup(i + 1)) else files, i - 1, p);
    }
  }

  /** A rotation without failures shifts every file by one place and drops only the oldest. */
  lemma RotateIsExactShift(cfg: Config, s: Log, os: Os, p: bytes)
    requires s.open && SizeIsReal(s) && Healthy(os, p)
    ensures var (s', ok) := Rotate(cfg, s, os);
      && ok && s'.open && s'.size == 0 && Current in s'.files
      && (forall q :: Content(s'.files, q) == ShiftedAt(cfg, s.files, q))
      && Retained(s.files, Kept(cfg)) == Content(s.files, Backup(Kept(cfg))) + Retained(s'.files, Kept(cfg))
  {
    var n := Kept(cfg);
    var (s', ok) := Rotate(cfg, s, os);
    EveryPlaceShifts(cfg, s, os, p);
    OlderShifts(cfg, s.files, s'.files, n);
    assert Content(s'.files, Current) == ShiftedAt(cfg, s.files, Current) == [];
    assert Retained(s'.files, n) == Older(s'.files, n) + [] == Older(s.files, n - 1) + Content(s.files, Current);
    Associate(Content(s.files, Backup(n)), Older(s.files, n - 1), Content(s.files, Current));
  }

  lemma EveryPlaceShifts(cfg: Config, s: Log, os: Os, p: bytes)
    requires s.open && SizeIsReal(s) && Healthy(os, p)
    ensures var (s', ok) := Rotate(cfg, s, os);
      && ok && s'.open && s'.size == 0 && Current in s'.files
      && (forall q :: Content(s'.files, q) == ShiftedAt(cfg, s.files, q))
  {
    var cleared := Cleared(cfg, s.files, os);
    var (s', ok) := Rotate(cfg, s, os);
    ShiftUpAt(cleared, cfg.maxBackups - 1, Current);
    forall q ensures Content(s'.files, q) == ShiftedAt(cfg, s.files, q) {
      ShiftUpAt(cleared, cfg.maxBackups - 1, q);
    }
  }

  lemma {:induction false} OlderShifts(cfg: Config, f: Files, g: Files, k: nat)
    requires 1 <= k <= Kept(cfg) && forall q :: Content(g, q) == ShiftedAt(cfg, f, q)
    ensures Older(g, k) == Older(f, k - 1) + Content(f, Current)
    decreases k
  {
    assert Content(g, Backup(k)) == ShiftedAt(cfg, f, Backup(k));
    if k == 1 {
      assert Older(g, 1) == Content(f, Current) + Older(g, 0);
    } else {
      OlderShifts(cfg, f, g, k - 1);
      assert Content(g, Backup(k)) == Content(f, Backup(k - 1));
      assert Older(g, k) == Content(f, Backup(k - 1)) + Older(g, k - 1);
      assert Older(f, k - 1) == Content(f, Backup(k - 1)) + Older(f, k - 2);
      Associate(Content(f, Backup(k - 1)), Older(f, k - 2), Content(f, Current));
    }
  }

  lemma Associate(a: bytes, b: bytes, c: bytes)
    ensures a + (b + c) == (a + b) + c
  {}

  /** Without failures a write lands whole at the end of one file: the current one, or an empty one after a
      rotation; the file stays within the limit unless the record alone exceeds it. */
  lemma WriteLandsWhole(cfg: Config, s: Log, p: bytes, os: Os)
    requires s.open && SizeIsReal(s) && Healthy(os, p)
    ensures var s' := Write(cfg, s, p, os);
      && Taken(cfg, s, p, os) == p && s'.open && SizeIsReal(s')
      && s'.files[Current] == (if |s.files[Current]| + |p| > cfg.maxSize then [] else s.files[Current]) + p
      && (|s'.files[Current]| <= cfg.maxSize || s'.files[Current] == p)
  {
    if MustRotate(cfg, s, p) {
      RotateIsExactShift(cfg, s, os, p);
      assert Content(Rotate(cfg, s, os).0.files, Current) == ShiftedAt(cfg, s.files, Current);
    }
  }

  predicate HealthyEvent(e: Event) {
    e.Wrote? ==> Healthy(e.os, e.p)
  }

  /** Writes, none of which meets a failure, closings and reopenings. */
  predicate HealthyRun(es: seq<Event>) {
    forall e | e in es :: HealthyEvent(e)
  }

  /** The record `c` heads place `r`, and from there on the directory holds exactly `c` and what followed. */
  predicate HeadsPlace(files: Files, r: nat, c: bytes, since: bytes) {
    && Older(files, r) + Content(files, Current) == c + since
    && c <= Content(files, if r == 0 then Current else Backup(r))
  }

  lemma StayStep(files: Files, p: bytes, r: nat, c: bytes, since: bytes)
    requires HeadsPlace(files, r, c, since)
    ensures HeadsPlace(files[Current := Content(files, Current) + p], r, c, since + p)
  {
    AppendToCurrent(files, p, r);
    assert Older(files, r) + (Content(files, Current) + p) == (Older(files, r) + Content(files, Current)) + p;
    assert (c + since) + p == c + (since + p);
  }

  lemma RotateStep(cfg: Config, s: Log, p: bytes, os: Os, r: nat, c: bytes, since: bytes)
    requires s.open && SizeIsReal(s) && Healthy(os, p)
    requires r < Kept(cfg) && HeadsPlace(s.files, r, c, since)
    ensures HeadsPlace(Rotate(cfg, s, os).0.files, r + 1, c, since)
  {
    RotateIsExactShift(cfg, s, os, p);
    var files := Rotate(cfg, s, os).0.files;
    OlderShifts(cfg, s.files, files, r + 1);
    assert Content(files, Current) == ShiftedAt(cfg, s.files, Current);
    assert Older(files, r + 1) + [] == Older(files, r + 1);
    assert Content(files, Backup(r + 1)) == ShiftedAt(cfg, s.files, Backup(r + 1));
  }

  lemma LastRotation(cfg: Config, s: Log, p: bytes, os: Os, c: bytes, since: bytes)
    requires s.open && SizeIsReal(s) && Healthy(os, p)
    requires HeadsPlace(s.files, Kept(cfg), c, since)
    ensures IsSuffix(Retained(Rotate(cfg, s, os).0.files, Kept(cfg)), since)
  {
    RotateIsExactShift(cfg, s, os, p);
    var kept := Retained(Rotate(cfg, s, os).0.files, Kept(cfg));
    CancelPrefix(Content(s.files, Backup(Kept(cfg))), kept, c, since);
  }

  lemma CancelPrefix(a: bytes, b: bytes, c: bytes, d: bytes)
    requires a + b == c + d && c <= a
    ensures IsSuffix(b, d)
  {
    assert (a + b)[|a|..] == b;
    assert (c + d)[|a|..] == d[|a| - |c|..];
  }

  /** After r rotations the record `c` heads place r, or it is gone and only what came after it remains. */
  predicate Survives(cfg: Config, files: Files, r: nat, c: bytes, since: bytes) {
    if r <= Kept(cfg) then HeadsPlace(files, r, c, since) else IsSuffix(Retained(files, Kept(cfg)), since)
  }

  lemma SurvivesRotation(cfg: Config, s: Log, p: bytes, os: Os, r: nat, c: bytes, since: bytes)
    requires s.open && SizeIsReal(s) && Healthy(os, p) && Survives(cfg, s.files, r, c, since)
    ensures Survives(cfg, Rotate(cfg, s, os).0.files, r + 1, c, since)
  {
    if r < Kept(cfg) {
      RotateStep(cfg, s, p, os, r, c, since);
    } else if r == Kept(cfg) {
      LastRotation(cfg, s, p, os, c, since);
    } else {
      RotateRetainsSuffix(cfg, s, os);
    }
  }

  lemma SurvivesAppend(cfg: Config, files: Files, p: bytes, r: nat, c: bytes, since: bytes)
    requires Survives(cfg, files, r, c, since)
    ensures Survives(cfg, files[Current := Content(files, Current) + p], r, c, since + p)
  {
    if r <= Kept(cfg) {
      StayStep(files, p, r, c, since);
    } else {
      AppendToCurrent(files, p, Kept(cfg));
    }
  }

  /** What is in the current file now survives exactly as many rotations as backups are kept: after r of them it
      heads backup r, followed by everything written since; one more and only later records remain. Closing and
      reopening the log in between makes no difference. */
  lemma {:induction false} SurvivesExactly(cfg: Config, s: Log, es: seq<Event>)
    requires SizeIsReal(s) && HealthyRun(es)
    ensures var s' := Run(cfg, s, es);
      && SizeIsReal(s')
      && Survives(cfg, s'.files, Rotations(cfg, s, es), Content(s.files, Current), Accepted(cfg, s, es))
    decreases |es|
  {
    if es == [] {
      assert Content(s.files, Current) + [] == Content(s.files, Current) == [] + Content(s.files, Current);
    } else {
      var es', e := es[..|es| - 1], es[|es| - 1];
      SurvivesExactly(cfg, s, es');
      SurvivesEvent(cfg, Run(cfg, s, es'), e, Rotations(cfg, s, es'), Content(s.files, Current), Accepted(cfg, s, es'));
    }
  }

  lemma SurvivesEvent(cfg: Config, s: Log, e: Event, r: nat, c: bytes, since: bytes)
    requires SizeIsReal(s) && HealthyEvent(e) && Survives(cfg, s.files, r, c, since)
    ensures var s' := Apply(cfg, s, e);
      && SizeIsReal(s')
      && Survives(cfg, s'.files, if e.Wrote? && s.open && MustRotate(cfg, s, e.p) then r + 1 else r, c, since + PutBy(cfg, s, e))
  {
    if e.Wrote? && s.open {
      SurvivesWrite(cfg, s, e.p, e.os, r, c, since);
    } else {
      var files := Apply(cfg, s, e).files;
      OlderFrame(s.files, files, r);
      OlderFrame(s.files, files, Kept(cfg));
      assert since + [] == since;
    }
  }

  lemma SurvivesWrite(cfg: Config, s: Log, p: bytes, os: Os, r: nat, c: bytes, since: bytes)
    requires s.open && SizeIsReal(s) && Healthy(os, p) && Survives(cfg, s.files, r, c, since)
    ensures var s' := Write(cfg, s, p, os);
      && s'.open && SizeIsReal(s') && Taken(cfg, s, p, os) == p
      && Survives(cfg, s'.files, if MustRotate(cfg, s, p) then r + 1 else r, c, since + p)
  {
    WriteLandsWhole(cfg, s, p, os);
    if MustRotate(cfg, s, p) {
      SurvivesRotation(cfg, s, p, os, r, c, since);
    }
    var ready := Ready(cfg, s, p, os).0;
    SurvivesAppend(cfg, ready.files, p, if MustRotate(cfg, s, p) then r + 1 else r, c, since);
  }
}
