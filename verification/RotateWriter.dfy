/** `RotateWriter`: the log writer itself, tied to the directory functions of RotateLog. */
module RotateWriter {
  import opened Bytes
  import opened RotateLog

  class Writer {
    const cfg: Config
    var files: Files
    var size: int
    var open: bool

    function State(): Log
      reads this
    {
      Log(files, size, open)
    }

    constructor (existing: Files, maxSize: int, maxBackups: int)
      ensures cfg == Config(maxSize, maxBackups)
      ensures State() == Open(existing) && SizeIsReal(State())
      ensures open && size == |Content(existing, Current)|
      ensures files.Keys == existing.Keys + {Current} && forall p :: Content(files, p) == Content(existing, p)
    {
      cfg := Config(maxSize, maxBackups);
      files := existing[Current := Content(existing, Current)];
      size := |Content(existing, Current)|;
      open := true;
    }

    /** Writes `p`, rotating first if it would not fit; what the directory holds is `RotateLog.Write`. */
    method Write(p: bytes, os: Os) returns (n: nat, ok: bool)
      requires SizeIsReal(State())
      modifies this
      ensures State() == RotateLog.Write(cfg, old(State()), p, os)
      ensures SizeIsReal(State())
      ensures n == |Taken(cfg, old(State()), p, os)|
      ensures ok <==> var (ready, rotated) := Ready(cfg, old(State()), p, os); rotated && ready.open && n == |p|
    {
      if size + |p| > cfg.maxSize {
        var rotated := Rotate(os);
        if !rotated {
          return 0, false;
        }
      }
      if !open {
        return 0, false;
      }
      n := if os.takes < |p| then os.takes else |p|;
      assert p[..|p|] == p;
      files := files[Current := Content(files, Current) + p[..n]];
      size := size + n;
      ok := n == |p|;
    }

    method Rotate(os: Os) returns (ok: bool)
      modifies this
      ensures (State(), ok) == RotateLog.Rotate(cfg, old(State()), os)
    {
      var wasOpen := open;
      open := false;
      if !wasOpen || os.closeFails {
        return false;
      }
      if !os.removeFails {
        files := files - {Backup(cfg.maxBackups)};
      }
      var i := cfg.maxBackups - 1;
      while i >= 1
        invariant cfg.maxBackups >= 1 ==> i >= 0
        invariant ShiftUp(files, i, os.renameFails) == Shifted(cfg, old(files), os)
        invariant size == old(size) && !open
      {
        if Backup(i) in files {
          if i in os.renameFails {
            return false;
          }
          files := Rename(files, Backup(i), Backup(i + 1));
        }
        i := i - 1;
      }
      if Current in files {
        if 0 in os.renameFails {
          return false;
        }
        files := Rename(files, Current, Backup(1));
      }
      if os.openFails {
        return false;
      }
      files, open, size := files[Current := []], true, 0;
      ok := true;
    }

    /** Closes the handle; a second call fails. */
    method Close(os: Os) returns (ok: bool)
      modifies `open
      ensures State() == Apply(cfg, old(State()), Shut) && ok == (old(open) && !os.closeFails)
    {
      ok := open && !os.closeFails;
      open := false;
    }
  }
}
