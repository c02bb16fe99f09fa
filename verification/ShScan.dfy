/** Quote-aware scanning of a byte string into separated fields: what `splitLine`,
    `splitLineKeepQuote` and `countFields` compute, as functions, with their laws. */
module ShScan {
  import opened Bytes

  const QUOTE: byte := 34

  /** Whether `s` holds an odd number of double quotes. */
  function Odd(s: bytes): bool {
    if s == [] then false else (s[0] == QUOTE) != Odd(s[1..])
  }

  function DropQuotes(s: bytes): bytes {
    if s == [] then [] else (if s[0] == QUOTE then [] else [s[0]]) + DropQuotes(s[1..])
  }

  /** Puts `p` in front of the first field. */
  function Push(p: bytes, fs: seq<bytes>): seq<bytes>
    requires |fs| > 0
  {
    [p + fs[0]] + fs[1..]
  }

  /** The fields of `s` when the scan starts inside a quote iff `q`; quotes stay in the fields iff `keep`. */
  function Fields(keep: bool, s: bytes, sep: bytes, q: bool): (fs: seq<bytes>)
    requires |sep| > 0
    ensures |fs| > 0
    decreases |s|
  {
    if s == [] then [[]]
    else if s[0] == QUOTE then Push(if keep then [QUOTE] else [], Fields(keep, s[1..], sep, !q))
    else if !q && sep <= s then [[]] + Fields(keep, s[|sep|..], sep, false)
    else Push([s[0]], Fields(keep, s[1..], sep, q))
  }

  function Join(fs: seq<bytes>, sep: bytes): bytes {
    if |fs| == 0 then [] else if |fs| == 1 then fs[0] else fs[0] + sep + Join(fs[1..], sep)
  }

  /** A separator can be recognised at `i`: the byte there is no quote, the scan is outside quotes, the separator follows. */
  predicate SepAt(s: bytes, sep: bytes, q: bool, i: nat)
    requires i < |s|
  {
    s[i] != QUOTE && Odd(s[..i]) == q && sep <= s[i..]
  }

  /** No separator is recognised in the first `n` positions of `s`. */
  ghost predicate Quiet(s: bytes, sep: bytes, q: bool, n: nat)
    requires n <= |s|
  {
    forall i: nat | i < n :: !SepAt(s, sep, q, i)
  }

  /** The first place where a separator is recognised is `n`. */
  ghost predicate FirstSep(s: bytes, sep: bytes, q: bool, n: nat) {
    n < |s| && SepAt(s, sep, q, n) && Quiet(s, sep, q, n)
  }

  /** Each separator is recognised exactly at the end of its field and nowhere earlier; the last field holds none. */
  ghost predicate CutLeftmost(fs: seq<bytes>, sep: bytes, q: bool)
    requires |fs| > 0
  {
    if |fs| == 1 then Quiet(fs[0], sep, q, |fs[0]|)
    else FirstSep(fs[0] + sep, sep, q, |fs[0]|) && CutLeftmost(fs[1..], sep, false)
  }

  lemma OddTail(s: bytes, i: nat)
    requires 0 < i <= |s|
    ensures Odd(s[..i]) == ((s[0] == QUOTE) != Odd(s[1..][..i - 1]))
  {
    assert s[..i][1..] == s[1..][..i - 1];
  }

  lemma SepAtTail(s: bytes, sep: bytes, q: bool, i: nat)
    requires 0 < i < |s|
    ensures SepAt(s, sep, q, i) == SepAt(s[1..], sep, q != (s[0] == QUOTE), i - 1)
  {
    OddTail(s, i);
    assert s[i..] == s[1..][i - 1..];
  }

  lemma QuietTail(s: bytes, sep: bytes, q: bool, n: nat)
    requires 0 < n <= |s|
    ensures Quiet(s, sep, q, n) <==> !SepAt(s, sep, q, 0) && Quiet(s[1..], sep, q != (s[0] == QUOTE), n - 1)
  {
    forall i: nat | 0 < i < n
      ensures SepAt(s, sep, q, i) == SepAt(s[1..], sep, q != (s[0] == QUOTE), i - 1)
    {
      SepAtTail(s, sep, q, i);
    }
    if Quiet(s, sep, q, n) {
      var t, q' := s[1..], q != (s[0] == QUOTE);
      forall i: nat | i < n - 1 ensures !SepAt(t, sep, q', i) {
        assert !SepAt(s, sep, q, i + 1);
      }
    }
  }

  lemma PushPush(p: bytes, r: bytes, fs: seq<bytes>)
    requires |fs| > 0
    ensures Push(p, Push(r, fs)) == Push(p + r, fs)
  {
    assert p + (r + fs[0]) == (p + r) + fs[0];
  }

  /** Over a stretch with no recognisable separator the scan only collects bytes. */
  lemma {:induction false} ScanThrough(keep: bool, f: bytes, rest: bytes, sep: bytes, q: bool)
    requires |sep| > 0 && Quiet(f + rest, sep, q, |f|)
    ensures Fields(keep, f + rest, sep, q)
         == Push(if keep then f else DropQuotes(f), Fields(keep, rest, sep, q != Odd(f)))
    decreases |f|
  {
    var s := f + rest;
    if f == [] {
      assert s == rest;
      var fs := Fields(keep, rest, sep, q);
      assert [] + fs[0] == fs[0] && [fs[0]] + fs[1..] == fs;
    } else {
      assert s[1..] == f[1..] + rest;
      QuietTail(s, sep, q, |f|);
      assert !SepAt(s, sep, q, 0);
      assert s[..0] == [] && s[0..] == s;
      ScanThrough(keep, f[1..], rest, sep, q != (f[0] == QUOTE));
      var first := if keep || f[0] != QUOTE then [f[0]] else [];
      var tail := if keep then f[1..] else DropQuotes(f[1..]);
      assert first + tail == if keep then f else DropQuotes(f);
      PushPush(first, tail, Fields(keep, rest, sep, q != Odd(f)));
    }
  }

  /** Joining the quote-keeping fields with the separator gives back the line. */
  lemma {:induction false} JoinUndoesSplit(s: bytes, sep: bytes, q: bool)
    requires |sep| > 0
    ensures Join(Fields(true, s, sep, q), sep) == s
    decreases |s|
  {
    if s != [] {
      if s[0] != QUOTE && !q && sep <= s {
        JoinUndoesSplit(s[|sep|..], sep, false);
        JoinAfterSep(Fields(true, s[|sep|..], sep, false), sep);
        assert sep + s[|sep|..] == s;
      } else {
        var q' := q != (s[0] == QUOTE);
        JoinUndoesSplit(s[1..], sep, q');
        JoinPush([s[0]], Fields(true, s[1..], sep, q'), sep);
        assert [s[0]] + s[1..] == s;
      }
    }
  }

  lemma JoinAfterSep(fs: seq<bytes>, sep: bytes)
    requires |fs| > 0
    ensures Join([[]] + fs, sep) == sep + Join(fs, sep)
  {
    assert ([[]] + fs)[1..] == fs;
    assert [] + sep == sep;
  }

  lemma JoinPush(p: bytes, fs: seq<bytes>, sep: bytes)
    requires |fs| > 0
    ensures Join(Push(p, fs), sep) == p + Join(fs, sep)
  {
    if |fs| > 1 {
      assert Push(p, fs)[1..] == fs[1..];
      assert (p + fs[0]) + sep + Join(fs[1..], sep) == p + (fs[0] + sep + Join(fs[1..], sep));
    }
  }

  /** The first quote-keeping field is where the line begins. */
  lemma FirstFieldIsPrefix(s: bytes, sep: bytes, q: bool)
    requires |sep| > 0
    ensures Fields(true, s, sep, q)[0] <= s
  {}

  function DropEach(fs: seq<bytes>): seq<bytes> {
    if fs == [] then [] else [DropQuotes(fs[0])] + DropEach(fs[1..])
  }

  lemma DropPush(c: byte, fs: seq<bytes>)
    requires |fs| > 0
    ensures DropEach(Push([c], fs)) == Push(if c == QUOTE then [] else [c], DropEach(fs))
  {}

  /** The three scanners see the same fields: dropping the quotes of the quote-keeping fields gives the plain ones. */
  lemma {:induction false} KeepAndDropAgree(s: bytes, sep: bytes, q: bool)
    requires |sep| > 0
    ensures DropEach(Fields(true, s, sep, q)) == Fields(false, s, sep, q)
    decreases |s|
  {
    if s != [] {
      if s[0] != QUOTE && !q && sep <= s {
        KeepAndDropAgree(s[|sep|..], sep, false);
        assert Fields(true, s, sep, q)[1..] == Fields(true, s[|sep|..], sep, false);
      } else {
        var q' := q != (s[0] == QUOTE);
        KeepAndDropAgree(s[1..], sep, q');
        DropPush(s[0], Fields(true, s[1..], sep, q'));
      }
    }
  }

  lemma DropEachAt(fs: seq<bytes>)
    ensures |DropEach(fs)| == |fs|
    ensures forall k | 0 <= k < |fs| :: DropEach(fs)[k] == DropQuotes(fs[k])
  {}

  lemma FirstSepTail(s: bytes, sep: bytes, q: bool, n: nat)
    requires 0 < n < |s|
    ensures FirstSep(s, sep, q, n) <==> !SepAt(s, sep, q, 0) && FirstSep(s[1..], sep, q != (s[0] == QUOTE), n - 1)
  {
    SepAtTail(s, sep, q, n);
    QuietTail(s, sep, q, n);
  }

  /** Joined fields up to and including the first separator are a prefix of the line. */
  lemma FirstCutIsPrefix(s: bytes, sep: bytes, q: bool)
    requires |sep| > 0
    ensures var fs := Fields(true, s, sep, q);
      (if |fs| > 1 then fs[0] + sep else fs[0]) <= s
  {
    JoinUndoesSplit(s, sep, q);
  }

  lemma CutPush(c: byte, fs: seq<bytes>, sep: bytes, q: bool)
    requires |fs| > 0 && CutLeftmost(fs, sep, q != (c == QUOTE))
    requires c == QUOTE || q || !(sep <= if |fs| > 1 then [c] + fs[0] + sep else [c] + fs[0])
    ensures CutLeftmost(Push([c], fs), sep, q)
  {
    var gs := Push([c], fs);
    var here := if |fs| > 1 then gs[0] + sep else gs[0];
    assert here[1..] == if |fs| > 1 then fs[0] + sep else fs[0];
    assert here[..0] == [] && here[0..] == here;
    assert gs[1..] == fs[1..];
    if |fs| > 1 {
      FirstSepTail(here, sep, q, |gs[0]|);
    } else {
      QuietTail(here, sep, q, |gs[0]|);
    }
  }

  /** The quote-keeping fields are cut at the leftmost possible places. */
  lemma {:induction false} SplitCutsLeftmost(s: bytes, sep: bytes, q: bool)
    requires |sep| > 0
    ensures CutLeftmost(Fields(true, s, sep, q), sep, q)
    decreases |s|
  {
    if s != [] {
      if s[0] != QUOTE && !q && sep <= s {
        SplitCutsLeftmost(s[|sep|..], sep, false);
        assert Fields(true, s, sep, q)[1..] == Fields(true, s[|sep|..], sep, false);
        assert [] + sep == sep && sep[..0] == [] && sep[0..] == sep;
      } else {
        SplitCutsLeftmost(s[1..], sep, q != (s[0] == QUOTE));
        FirstCutIsPrefix(s, sep, q);
        CutPush(s[0], Fields(true, s[1..], sep, q != (s[0] == QUOTE)), sep, q);
      }
    }
  }

  lemma QuietInContext(f: bytes, sep: bytes, rest: bytes, q: bool)
    requires FirstSep(f + sep, sep, q, |f|)
    ensures Quiet(f + (sep + rest), sep, q, |f|)
    ensures sep[0] != QUOTE && Odd(f) == q
  {
    assert (f + sep)[..|f|] == f && (f + sep)[|f|..] == sep;
    forall i: nat | i < |f| ensures !SepAt(f + (sep + rest), sep, q, i) {
      assert !SepAt(f + sep, sep, q, i);
      assert (f + (sep + rest))[..i] == (f + sep)[..i];
      assert (f + sep)[i..] <= (f + (sep + rest))[i..];
    }
  }

  /** A separator at the front, outside quotes, ends an empty field. */
  lemma SplitAtSep(sep: bytes, rest: bytes)
    requires |sep| > 0 && sep[0] != QUOTE
    ensures forall keep :: Fields(keep, sep + rest, sep, false) == [[]] + Fields(keep, rest, sep, false)
  {}

  /** A field, its separator and the rest are split after the field. */
  lemma FirstCutComesBack(f: bytes, rest: bytes, sep: bytes, q: bool)
    requires |sep| > 0 && FirstSep(f + sep, sep, q, |f|)
    ensures Fields(true, f + sep + rest, sep, q) == [f] + Fields(true, rest, sep, false)
  {
    QuietInContext(f, sep, rest, q);
    ScanThrough(true, f, sep + rest, sep, q);
    SplitAtSep(sep, rest);
    assert f + (sep + rest) == f + sep + rest;
    assert ([[]] + Fields(true, rest, sep, false))[1..] == Fields(true, rest, sep, false);
    assert f + [] == f;
  }

  lemma {:induction false} CutIsUnique(fs: seq<bytes>, sep: bytes, q: bool)
    requires |sep| > 0 && |fs| > 0 && CutLeftmost(fs, sep, q)
    ensures Fields(true, Join(fs, sep), sep, q) == fs
    decreases |fs|
  {
    if |fs| == 1 {
      assert fs[0] + [] == fs[0];
      ScanThrough(true, fs[0], [], sep, q);
    } else {
      CutIsUnique(fs[1..], sep, false);
      FirstCutComesBack(fs[0], Join(fs[1..], sep), sep, q);
      assert fs == [fs[0]] + fs[1..];
    }
  }

  /** Reference definition of `splitLineKeepQuote`: the only list that joins to the line and is cut
      leftmost, each separator being recognised outside quotes. */
  lemma SplitIsTheLeftmostCut(s: bytes, sep: bytes, fs: seq<bytes>)
    requires |sep| > 0 && |fs| > 0
    ensures fs == Fields(true, s, sep, false) <==> Join(fs, sep) == s && CutLeftmost(fs, sep, false)
  {
    JoinUndoesSplit(s, sep, false);
    SplitCutsLeftmost(s, sep, false);
    if Join(fs, sep) == s && CutLeftmost(fs, sep, false) {
      CutIsUnique(fs, sep, false);
    }
  }

  lemma {:induction false} ClosedBeforeSeparators(fs: seq<bytes>, sep: bytes, q: bool, k: nat)
    requires k < |fs| - 1 && CutLeftmost(fs, sep, q)
    ensures Odd(fs[k]) == (q && k == 0)
    decreases k
  {
    if k == 0 {
      assert (fs[0] + sep)[..|fs[0]|] == fs[0];
    } else {
      ClosedBeforeSeparators(fs[1..], sep, false, k - 1);
    }
  }

  /** Every quote-keeping field except possibly the last closes its quotes. */
  lemma OnlyTheLastFieldIsOpen(s: bytes, sep: bytes, k: nat)
    requires |sep| > 0 && k < |Fields(true, s, sep, false)| - 1
    ensures !Odd(Fields(true, s, sep, false)[k])
  {
    SplitCutsLeftmost(s, sep, false);
    ClosedBeforeSeparators(Fields(true, s, sep, false), sep, false, k);
  }
}
