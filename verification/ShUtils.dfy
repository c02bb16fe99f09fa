/** `ShUtils`: the line splitters, the response parser and the parameter printer. */
module ShUtils {
  import opened Bytes
  import opened Options
  import opened ShScan

  method SplitLine(line: bytes, sep: bytes) returns (result: seq<bytes>)
    requires |sep| > 0
    ensures result == Fields(false, line, sep, false)
  {
    result := [];
    var field: bytes, inQuote, i := [], false, 0;
    PushNothing(Fields(false, line, sep, false));
    while i < |line|
      invariant 0 <= i <= |line|
      invariant Fields(false, line, sep, false) == result + Push(field, Fields(false, line[i..], sep, inQuote))
    {
      ScanStep(false, line, sep, inQuote, i, result, field);
      if line[i] == QUOTE {
        inQuote := !inQuote;
      } else if !inQuote && sep <= line[i..] {
        result, field := result + [field], [];
        i := i + |sep| - 1;
      } else {
        field := field + [line[i]];
      }
      i := i + 1;
    }
    assert field + [] == field;
    result := result + [field];
  }

  method SplitLineKeepQuote(line: bytes, sep: bytes) returns (result: seq<bytes>)
    requires |sep| > 0
    ensures result == Fields(true, line, sep, false)
  {
    result := [];
    var field: bytes, inQuote, i := [], false, 0;
    PushNothing(Fields(true, line, sep, false));
    while i < |line|
      invariant 0 <= i <= |line|
      invariant Fields(true, line, sep, false) == result + Push(field, Fields(true, line[i..], sep, inQuote))
    {
      ScanStep(true, line, sep, inQuote, i, result, field);
      if line[i] == QUOTE {
        inQuote, field := !inQuote, field + [line[i]];
      } else if !inQuote && sep <= line[i..] {
        result, field := result + [field], [];
        i := i + |sep| - 1;
      } else {
        field := field + [line[i]];
      }
      i := i + 1;
    }
    assert field + [] == field;
    result := result + [field];
  }

  /** Counts the fields of either splitter. */
  method CountFields(line: bytes, sep: bytes) returns (count: nat)
    requires |sep| > 0
    ensures forall keep :: count == |Fields(keep, line, sep, false)|
  {
    count := 1;
    var inQuote, i := false, 0;
    while i < |line|
      invariant 0 <= i <= |line|
      invariant |Fields(false, line, sep, false)| + 1 == count + |Fields(false, line[i..], sep, inQuote)|
    {
      CountStep(line, sep, inQuote, i);
      if line[i] == QUOTE {
        inQuote := !inQuote;
      } else if !inQuote && sep <= line[i..] {
        count := count + 1;
        i := i + |sep| - 1;
      }
      i := i + 1;
    }
    KeepAndDropAgree(line, sep, false);
    DropEachAt(Fields(true, line, sep, false));
  }

  /** One step of a scan with `result` and `field` collected so far. */
  lemma ScanStep(keep: bool, line: bytes, sep: bytes, q: bool, i: nat, result: seq<bytes>, field: bytes)
    requires |sep| > 0 && i < |line|
    ensures var whole := result + Push(field, Fields(keep, line[i..], sep, q));
      if line[i] == QUOTE then
        whole == result + Push(if keep then field + [line[i]] else field, Fields(keep, line[i + 1..], sep, !q))
      else if !q && sep <= line[i..] then
        whole == (result + [field]) + Push([], Fields(keep, line[i + |sep|..], sep, false))
      else whole == result + Push(field + [line[i]], Fields(keep, line[i + 1..], sep, q))
  {
    var s := line[i..];
    assert s[1..] == line[i + 1..];
    if line[i] == QUOTE {
      var p: bytes := if keep then [QUOTE] else [];
      PushPush(field, p, Fields(keep, s[1..], sep, !q));
      assert field + p == if keep then field + [line[i]] else field;
    } else if !q && sep <= s {
      assert s[|sep|..] == line[i + |sep|..];
      var fs := Fields(keep, s[|sep|..], sep, false);
      PushNothing(fs);
      assert field + [] == field;
      assert result + ([field] + fs) == (result + [field]) + fs;
    } else {
      PushPush(field, [s[0]], Fields(keep, s[1..], sep, q));
    }
  }

  /** One step of the count. */
  lemma CountStep(line: bytes, sep: bytes, q: bool, i: nat)
    requires |sep| > 0 && i < |line|
    ensures |Fields(false, line[i..], sep, q)| ==
      if line[i] == QUOTE then |Fields(false, line[i + 1..], sep, !q)|
      else if !q && sep <= line[i..] then 1 + |Fields(false, line[i + |sep|..], sep, false)|
      else |Fields(false, line[i + 1..], sep, q)|
  {
    var s := line[i..];
    assert s[1..] == line[i + 1..];
    if sep <= s {
      assert s[|sep|..] == line[i + |sep|..];
    }
  }

  lemma PushNothing(fs: seq<bytes>)
    requires |fs| > 0
    ensures Push([], fs) == fs
  {
    assert [] + fs[0] == fs[0] && [fs[0]] + fs[1..] == fs;
  }

  // ---------------------------------------------------------------- parsing

  type Cell = Option<bytes>

  function SplitEach(lines: seq<bytes>, sep: bytes, q: bool): (t: seq<seq<bytes>>)
    requires |sep| > 0
    ensures |t| == |lines|
  {
    if lines == [] then [] else [Fields(false, lines[0], sep, q)] + SplitEach(lines[1..], sep, false)
  }

  function Width(t: seq<seq<bytes>>): nat {
    if t == [] then 0 else if |t[0]| > Width(t[1..]) then |t[0]| else Width(t[1..])
  }

  function PadRow(row: seq<bytes>, w: nat): seq<Cell> {
    seq(w, c => if 0 <= c < |row| then Some(row[c]) else None)
  }

  function PadTable(t: seq<seq<bytes>>): seq<seq<Cell>> {
    seq(|t|, r requires 0 <= r < |t| => PadRow(t[r], Width(t)))
  }

  lemma {:induction false} WidthIsTheLongestRow(t: seq<seq<bytes>>)
    ensures forall r | 0 <= r < |t| :: |t[r]| <= Width(t)
    ensures t != [] ==> exists r | 0 <= r < |t| :: |t[r]| == Width(t)
  {
    if |t| == 1 {
      assert |t[0]| == Width(t);
    } else if |t| > 1 {
      WidthIsTheLongestRow(t[1..]);
      forall r | 0 <= r < |t| ensures |t[r]| <= Width(t) {
        if r > 0 { assert t[r] == t[1..][r - 1]; }
      }
      var r :| 0 <= r < |t[1..]| && |t[1..][r]| == Width(t[1..]);
      assert if |t[0]| == Width(t) then |t[0]| == Width(t) else |t[r + 1]| == Width(t);
    }
  }

  function Decimal(n: nat): bytes {
    (if n < 10 then [] else Decimal(n / 10)) + [48 + (n % 10) as byte]
  }

  function Itoa(n: int): bytes {
    if n < 0 then [45] + Decimal(-n) else Decimal(n)
  }

  predicate IsDigit(b: byte) { 48 <= b <= 57 }

  /** The number that digits denote, read from the left after `acc`. */
  function ValueOf(digits: bytes, acc: nat): nat
    requires forall b | b in digits :: IsDigit(b)
  {
    if digits == [] then acc
    else
      assert IsDigit(digits[0]);
      ValueOf(digits[1..], 10 * acc + (digits[0] as nat - 48))
  }

  /** `s` is the decimal text of `n`: its digits denote `n`, with no leading zero and a minus sign only if `n` is
      negative. */
  predicate IsDecimal(s: bytes, n: int) {
    if n < 0 then s != [] && s[0] == 45 && IsNatural(s[1..], -n) else IsNatural(s, n)
  }

  predicate IsNatural(s: bytes, n: nat) {
    s != [] && (forall b | b in s :: IsDigit(b)) && ValueOf(s, 0) == n && (|s| > 1 ==> s[0] != 48)
  }

  lemma {:induction false} ValueOfLonger(s: bytes, d: byte, acc: nat)
    requires (forall b | b in s :: IsDigit(b)) && IsDigit(d)
    ensures (forall b | b in s + [d] :: IsDigit(b)) && ValueOf(s + [d], acc) == 10 * ValueOf(s, acc) + (d as nat - 48)
    decreases |s|
  {
    if s == [] {
      assert ValueOf([d], acc) == ValueOf([d][1..], 10 * acc + (d as nat - 48));
    } else {
      assert (s + [d])[1..] == s[1..] + [d] && IsDigit(s[0]);
      ValueOfLonger(s[1..], d, 10 * acc + (s[0] as nat - 48));
    }
  }

  lemma {:induction false} DecimalIsNatural(n: nat)
    ensures IsNatural(Decimal(n), n) && (n > 0 ==> Decimal(n)[0] != 48)
    decreases n
  {
    var d: byte := 48 + (n % 10) as byte;
    if n < 10 {
      ValueOfLonger([], d, 0);
    } else {
      DecimalIsNatural(n / 10);
      ValueOfLonger(Decimal(n / 10), d, 0);
    }
  }

  lemma ItoaIsDecimal(n: int)
    ensures IsDecimal(Itoa(n), n)
  {
    DecimalIsNatural(if n < 0 then -n else n);
  }

  /** The table of a response: lines cut with quotes kept, then each line cut with quotes dropped. */
  function ParsedTable(data: bytes, newline: bytes, split: bytes): seq<seq<bytes>>
    requires |newline| > 0 && |split| > 0
  {
    SplitEach(Fields(true, data, newline, false), split, false)
  }

  method ParseResponse(data: bytes, newline: bytes, split: bytes) returns (rows: seq<seq<Cell>>, name: seq<bytes>)
    requires |newline| > 0
    ensures |split| > 0 ==> rows == PadTable(ParsedTable(data, newline, split))
    ensures var lines := Fields(true, data, newline, false);
      && |rows| == |lines|
      && (|split| > 0 ==> forall r | 0 <= r < |lines| :: IsPadded(rows[r], Fields(false, lines[r], split, false), |rows[0]|))
      && (|split| > 0 ==> exists r | 0 <= r < |lines| :: |Fields(false, lines[r], split, false)| == |rows[0]|)
      && (split == [] ==> forall r | 0 <= r < |lines| :: rows[r] == [Some(lines[r])])
    ensures |name| == |rows| && forall r | 0 <= r < |rows| :: IsDecimal(name[r], r + 1)
  {
    var lines := SplitLineKeepQuote(data, newline);
    if split != [] {
      rows := FillRows(lines, split);
      TableIsPadded(data, newline, split);
    } else {
      rows := seq(|lines|, _ => []);
      for i := 0 to |lines|
        invariant |rows| == |lines|
        invariant forall k | 0 <= k < i :: rows[k] == [Some(lines[k])]
      {
        rows := rows[i := [Some(lines[i])]];
      }
    }
    name := RowNames(|rows|);
  }

  /** The fields come first and nil cells fill the row up to width `w`. */
  predicate IsPadded(row: seq<Cell>, fields: seq<bytes>, w: nat) {
    |fields| <= |row| == w && forall c | 0 <= c < w :: row[c] == if c < |fields| then Some(fields[c]) else None
  }

  lemma TableIsPadded(data: bytes, newline: bytes, split: bytes)
    requires |newline| > 0 && |split| > 0
    ensures var lines, rows := Fields(true, data, newline, false), PadTable(ParsedTable(data, newline, split));
      && |rows| == |lines|
      && (forall r | 0 <= r < |lines| :: IsPadded(rows[r], Fields(false, lines[r], split, false), |rows[0]|))
      && (exists r | 0 <= r < |lines| :: |Fields(false, lines[r], split, false)| == |rows[0]|)
  {
    var t := ParsedTable(data, newline, split);
    SplitEachAt(Fields(true, data, newline, false), split);
    WidthIsTheLongestRow(t);
    var r :| 0 <= r < |t| && |t[r]| == Width(t);
    assert t[r] == Fields(false, Fields(true, data, newline, false)[r], split, false);
  }

  method RowNames(n: nat) returns (name: seq<bytes>)
    ensures |name| == n && forall r | 0 <= r < n :: IsDecimal(name[r], r + 1)
  {
    name := seq(n, _ => []);
    for i := 0 to n
      invariant |name| == n
      invariant forall k | 0 <= k < i :: IsDecimal(name[k], k + 1)
    {
      ItoaIsDecimal(i + 1);
      name := name[i := Itoa(i + 1)];
    }
  }

  method FillRows(lines: seq<bytes>, split: bytes) returns (rows: seq<seq<Cell>>)
    requires |split| > 0 && |lines| > 0
    ensures rows == PadTable(SplitEach(lines, split, false))
  {
    ghost var t := SplitEach(lines, split, false);
    SplitEachAt(lines, split);
    var dataMax := WidestLine(lines, split);
    WidthIsTheLongestRow(t);
    rows := seq(|lines|, _ => []);
    for i := 0 to |lines|
      invariant |rows| == |lines|
      invariant forall k | 0 <= k < i :: rows[k] == PadRow(t[k], dataMax)
    {
      assert |t[i]| <= dataMax;
      var row := FillRow(lines[i], split, dataMax);
      rows := rows[i := row];
    }
  }

  /** The largest field count over the lines, at least 1. */
  method WidestLine(lines: seq<bytes>, split: bytes) returns (dataMax: nat)
    requires |split| > 0 && |lines| > 0
    ensures dataMax == Width(SplitEach(lines, split, false))
  {
    ghost var t := SplitEach(lines, split, false);
    SplitEachAt(lines, split);
    WidthIsTheLongestRow(t);
    var widest: int := 0;
    for i := 0 to |lines|
      invariant 0 <= widest <= Width(t)
      invariant forall k | 0 <= k < i :: 0 < |t[k]| <= widest
    {
      var cnt := CountFields(lines[i], split);
      if widest < cnt {
        widest := cnt;
      }
    }
    if widest <= 0 {
      widest := 1;
    }
    dataMax := widest;
  }

  /** A nil row whose first cells are overwritten by the fields of the line; no index is out of range. */
  method FillRow(line: bytes, split: bytes, dataMax: nat) returns (row: seq<Cell>)
    requires |split| > 0 && |Fields(false, line, split, false)| <= dataMax
    ensures row == PadRow(Fields(false, line, split, false), dataMax)
  {
    row := seq(dataMax, _ => None);
    var fields := SplitLine(line, split);
    for d := 0 to |fields|
      invariant row == PadRow(fields[..d], dataMax)
    {
      row := row[d := Some(fields[d])];
    }
    assert fields[..|fields|] == fields;
  }

  lemma {:induction false} SplitEachAt(lines: seq<bytes>, sep: bytes)
    requires |sep| > 0
    ensures forall r | 0 <= r < |lines| :: SplitEach(lines, sep, false)[r] == Fields(false, lines[r], sep, false)
  {
    if lines != [] {
      SplitEachAt(lines[1..], sep);
      forall r | 0 < r < |lines| ensures SplitEach(lines, sep, false)[r] == Fields(false, lines[r], sep, false) {
        assert SplitEach(lines, sep, false)[r] == SplitEach(lines[1..], sep, false)[r - 1];
      }
    }
  }

  // ---------------------------------------------------------------- one pass

  /** The reference: one scanner over the whole input that carries the quote state across lines. */
  function Table(s: bytes, newline: bytes, split: bytes, q: bool): (t: seq<seq<bytes>>)
    requires |newline| > 0 && |split| > 0
    ensures |t| > 0 && |t[0]| > 0
    decreases |s|
  {
    if s == [] then [[[]]]
    else if s[0] == QUOTE then Table(s[1..], newline, split, !q)
    else if !q && newline <= s then [[[]]] + Table(s[|newline|..], newline, split, false)
    else if !q && split <= s then
      var t := Table(s[|split|..], newline, split, false);
      [[[]] + t[0]] + t[1..]
    else
      var t := Table(s[1..], newline, split, q);
      [Push([s[0]], t[0])] + t[1..]
  }

  /** Wherever a newline can begin inside a splitter, outside its quotes, one begins with the splitter already. */
  ghost predicate NeverHidden(newline: bytes, split: bytes) {
    forall j | 1 <= j < |split| && !Odd(split[..j]) && (newline <= split[j..] || split[j..] <= newline) ::
      newline <= split[..j] + newline
  }

  /** The separators that two levels read like one pass: a separator that begins with a quote is never recognised, a
      splitter that begins with a newline neither; otherwise the splitter must close its quotes and hide no newline. */
  ghost predicate OnePassSeparators(newline: bytes, split: bytes)
    requires |newline| > 0 && |split| > 0
  {
    newline[0] == QUOTE || split[0] == QUOTE || newline <= split || (!Odd(split) && NeverHidden(newline, split))
  }

  /** Two-level parsing equals one pass: cutting lines with quotes kept and then cells with quotes
      dropped finds exactly the cells of a single scan. */
  lemma {:induction false} TwoLevelsAreOnePass(s: bytes, newline: bytes, split: bytes, q: bool)
    requires |newline| > 0 && |split| > 0 && OnePassSeparators(newline, split)
    ensures SplitEach(Fields(true, s, newline, q), split, q) == Table(s, newline, split, q)
    decreases |s|
  {
    if newline[0] == QUOTE {
      OneLine(s, newline, split, q);
    } else if s == [] {
    } else if s[0] == QUOTE {
      TwoLevelsAreOnePass(s[1..], newline, split, !q);
      var first := Fields(true, s[1..], newline, !q)[0];
      assert ([QUOTE] + first)[1..] == first;
      PushNothing(Fields(false, first, split, !q));
    } else if !q && newline <= s {
      TwoLevelsAreOnePass(s[|newline|..], newline, split, false);
      assert Fields(true, s, newline, q)[1..] == Fields(true, s[|newline|..], newline, false);
    } else if !q && split <= s {
      var rest := s[|split|..];
      assert s == split + rest;
      TwoLevelsAreOnePass(rest, newline, split, false);
      SplitterIsQuiet(newline, split, rest);
      ScanThrough(true, split, rest, newline, false);
      SplitAtSep(split, Fields(true, rest, newline, false)[0]);
    } else {
      TwoLevelsAreOnePass(s[1..], newline, split, q);
      var first := Fields(true, s[1..], newline, q)[0];
      FirstFieldIsPrefix(s, newline, q);
      assert ([s[0]] + first)[1..] == first;
      assert [s[0]] + first <= s;
    }
  }

  /** A newline that begins with a quote never ends a line. */
  lemma {:induction false} OneLine(s: bytes, newline: bytes, split: bytes, q: bool)
    requires |newline| > 0 && |split| > 0 && newline[0] == QUOTE
    ensures Fields(true, s, newline, q) == [s]
    ensures Table(s, newline, split, q) == [Fields(false, s, split, q)]
    decreases |s|
  {
    if s != [] {
      var q' := q != (s[0] == QUOTE);
      OneLine(s[1..], newline, split, q');
      assert [s[0]] + s[1..] == s;
      if s[0] == QUOTE {
        PushNothing(Fields(false, s[1..], split, !q));
      } else if !q && split <= s {
        OneLine(s[|split|..], newline, split, false);
      }
    }
  }

  lemma QuoteFree(s: bytes)
    requires QUOTE !in s
    ensures !Odd(s) && DropQuotes(s) == s
  {
    if s != [] { QuoteFree(s[1..]); }
  }

  lemma PrefixOfConcat(p: bytes, a: bytes, rest: bytes)
    requires p <= a + rest
    ensures p <= a || a <= p
  {}

  lemma BeginsWithNewline(newline: bytes, split: bytes, rest: bytes, i: nat)
    requires NeverHidden(newline, split) && 1 <= i < |split| && !Odd(split[..i]) && newline <= (split + rest)[i..]
    ensures newline <= split + rest
  {
    assert (split + rest)[i..] == split[i..] + rest;
    PrefixOfConcat(newline, split[i..], rest);
    assert newline <= split[..i] + newline <= split + rest;
  }

  lemma SplitterIsQuiet(newline: bytes, split: bytes, rest: bytes)
    requires |newline| > 0 && NeverHidden(newline, split)
    requires |split| > 0 && !(newline <= split + rest)
    ensures Quiet(split + rest, newline, false, |split|)
  {
    var s := split + rest;
    assert s[0..] == s;
    forall i: nat | i < |split| ensures !SepAt(s, newline, false, i) {
      assert s[..i] == split[..i];
      if i > 0 && !Odd(split[..i]) && newline <= s[i..] {
        BeginsWithNewline(newline, split, rest, i);
      }
    }
  }

  /** Both ways of parsing agree on every input. */
  ghost predicate AlwaysAgree(newline: bytes, split: bytes)
    requires |newline| > 0 && |split| > 0
  {
    forall s :: ParsedTable(s, newline, split) == Table(s, newline, split, false)
  }

  /** For all separators, exactly when the two levels are one pass. */
  lemma TwoLevelsAreOnePassIff(newline: bytes, split: bytes)
    requires |newline| > 0 && |split| > 0
    ensures AlwaysAgree(newline, split) <==> OnePassSeparators(newline, split)
  {
    if OnePassSeparators(newline, split) {
      forall s ensures ParsedTable(s, newline, split) == Table(s, newline, split, false) {
        TwoLevelsAreOnePass(s, newline, split, false);
      }
    } else if Odd(split) {
      var s := split + [Marker(newline, split)] + newline;
      OpenQuoteDisagrees(newline, split);
      assert ParsedTable(s, newline, split) != Table(s, newline, split, false);
    } else {
      var j: nat :| 1 <= j < |split| && !Odd(split[..j]) && (newline <= split[j..] || split[j..] <= newline) &&
                    !(newline <= split[..j] + newline);
      var s := HideNewline(newline, split, j);
      assert s[..j] == split[..j];
      HiddenNewlineDisagrees(s, newline, split, j);
      assert ParsedTable(s, newline, split) != Table(s, newline, split, false);
    }
  }

  lemma HideNewline(newline: bytes, split: bytes, j: nat) returns (s: bytes)
    requires 1 <= j < |split| && (newline <= split[j..] || split[j..] <= newline) && !(newline <= split[..j] + newline)
    ensures split <= s && newline <= s[j..] && !(newline <= s)
  {
    s := if newline <= split[j..] then split else split[..j] + newline;
    assert split == split[..j] + split[j..];
  }

  /** An input that begins with a splitter but no newline, while a newline begins inside that splitter, outside quotes:
      the first line ends before the splitter does. */
  lemma {:induction false} HiddenNewlineDisagrees(s: bytes, newline: bytes, split: bytes, j: nat)
    requires |newline| > 0 && newline[0] != QUOTE && |split| > 0 && split[0] != QUOTE
    requires 1 <= j < |split| && split <= s && !Odd(s[..j]) && newline <= s[j..] && !(newline <= s)
    ensures SplitEach(Fields(true, s, newline, false), split, false) != Table(s, newline, split, false)
    decreases j
  {
    if i: nat :| 1 <= i < j && !Odd(s[..i]) && newline <= s[i..] {
      HiddenNewlineDisagrees(s, newline, split, i);
    } else {
      var f, rest := s[..j], s[j..];
      assert s == f + rest && s[0..] == s;
      assert forall i: nat | i < j :: s[..i] == f[..i];
      ScanThrough(true, f, rest, newline, false);
      assert rest == newline + rest[|newline|..];
      SplitAtSep(newline, rest[|newline|..]);
      assert f + [] == f;
      ShortFirstLine(s, newline, split);
    }
  }

  /** A first line shorter than the splitter has one cell, where one pass finds at least two. */
  lemma ShortFirstLine(s: bytes, newline: bytes, split: bytes)
    requires |newline| > 0 && |split| > 0 && split[0] != QUOTE && split <= s && !(newline <= s)
    requires |Fields(true, s, newline, false)[0]| < |split|
    ensures SplitEach(Fields(true, s, newline, false), split, false) != Table(s, newline, split, false)
  {
    var f := Fields(true, s, newline, false)[0];
    assert f + [] == f;
    ScanThrough(false, f, [], split, false);
    assert |SplitEach(Fields(true, s, newline, false), split, false)[0]| == 1;
    assert |Table(s, newline, split, false)[0]| >= 2;
  }

  /** A byte that is no quote and begins neither separator nor continues a splitter into a newline. */
  function Marker(newline: bytes, split: bytes): (x: byte)
    requires |newline| > 0 && |split| > 0
    ensures x != QUOTE && x != newline[0] && x != split[0] && (|newline| > |split| ==> x != newline[|split|])
  {
    var used := {QUOTE, newline[0], split[0]} + if |newline| > |split| then {newline[|split|]} else {};
    if 0 !in used then 0 else if 1 !in used then 1 else if 2 !in used then 2 else if 3 !in used then 3 else 4
  }

  /** A splitter that leaves a quote open: in two levels the newline after it is inside that quote. */
  lemma OpenQuoteDisagrees(newline: bytes, split: bytes)
    requires |newline| > 0 && newline[0] != QUOTE && |split| > 0 && split[0] != QUOTE
    requires Odd(split) && !(newline <= split)
    ensures var s := split + [Marker(newline, split)] + newline;
      SplitEach(Fields(true, s, newline, false), split, false) != Table(s, newline, split, false)
  {
    var x := Marker(newline, split);
    var s := split + [x] + newline;
    var lines := Fields(true, s, newline, false);
    MarkedBeginsWithNoNewline(newline, split, x);
    TwoRowsInOnePass(newline, split, x);
    if |lines| > 1 && |lines[0]| < |split| {
      ShortFirstLine(s, newline, split);
    } else if |lines| > 1 {
      LateNewline(newline, split, x);
    }
  }

  lemma MarkedBeginsWithNoNewline(newline: bytes, split: bytes, x: byte)
    requires !(newline <= split) && (|newline| > |split| ==> x != newline[|split|])
    ensures !(newline <= split + [x] + newline)
  {
    var s := split + [x] + newline;
    assert s[|split|] == x && s[..|split|] == split;
    assert |newline| <= |split| ==> s[..|newline|] == split[..|newline|];
  }

  lemma TwoRowsInOnePass(newline: bytes, split: bytes, x: byte)
    requires |newline| > 0 && newline[0] != QUOTE && |split| > 0 && split[0] != QUOTE
    requires x != QUOTE && x != newline[0] && x != split[0] && !(newline <= split + [x] + newline)
    ensures |Table(split + [x] + newline, newline, split, false)| == 2
  {
    var s := split + [x] + newline;
    assert s[|split|..] == [x] + newline && ([x] + newline)[1..] == newline;
    assert newline[|newline|..] == [];
    assert |Table([], newline, split, false)| == 1;
    assert |Table(newline, newline, split, false)| == 2;
    assert !(newline <= [x] + newline) && !(split <= [x] + newline);
    assert |Table([x] + newline, newline, split, false)| == 2;
  }

  /** With an open quote no newline is recognised at or after the end of the splitter. */
  lemma LateNewline(newline: bytes, split: bytes, x: byte)
    requires |newline| > 0 && newline[0] != QUOTE && |split| > 0 && x != QUOTE && x != newline[0] && Odd(split)
    requires |Fields(true, split + [x] + newline, newline, false)| > 1
    ensures |Fields(true, split + [x] + newline, newline, false)[0]| < |split|
  {
    var s := split + [x] + newline;
    var lines := Fields(true, s, newline, false);
    var f := lines[0];
    SplitCutsLeftmost(s, newline, false);
    JoinUndoesSplit(s, newline, false);
    assert s == f + newline + Join(lines[1..], newline);
    assert s[|f|] == newline[0] && s[..|f|] == f;
    assert (f + newline)[..|f|] == f;
    assert !Odd(f);
    assert s[|split|] == x;
    if |f| == |split| + 1 {
      assert f == split + [x];
      OddAppend(split, x);
    }
  }

  lemma {:induction false} OddAppend(s: bytes, x: byte)
    requires x != QUOTE
    ensures Odd(s + [x]) == Odd(s)
  {
    if s != [] {
      assert (s + [x])[1..] == s[1..] + [x];
      OddAppend(s[1..], x);
    }
  }

  /** Separators that share no byte satisfy the condition if the splitter holds no quote. */
  lemma DisjointSeparators(newline: bytes, split: bytes)
    requires |newline| > 0 && |split| > 0 && QUOTE !in split && forall b | b in newline :: b !in split
    ensures OnePassSeparators(newline, split)
  {
    QuoteFree(split);
    forall j | 1 <= j < |split| ensures !(newline <= split[j..]) && !(split[j..] <= newline) {
      assert newline[0] in newline && split[j] in split;
      assert split[j..][0] == split[j];
    }
  }

  // ---------------------------------------------------------------- printing

  /** A parameter; for a float the text is given, its formatting is not modelled. */
  datatype Arg = Raw(raw: bytes) | Text(text: bytes) | Num(n: int) | Flag(b: bool) | Float(printed: bytes) | Other

  function HexDigit(n: nat): byte
    requires n < 16
  {
    if n < 10 then (48 + n) as byte else (87 + n) as byte
  }

  function Hex(s: bytes): bytes {
    if s == [] then [] else [HexDigit(s[0] as nat / 16), HexDigit(s[0] as nat % 16)] + Hex(s[1..])
  }

  function Shown(a: Arg): bytes {
    match a
    case Raw(raw) => Hex(raw)
    case Text(text) => text
    case Num(n) => Itoa(n)
    case Flag(b) => if b then [116, 114, 117, 101] else [102, 97, 108, 115, 101]
    case Float(printed) => printed
    case Other => []
  }

  function HexValue(b: byte): Option<nat> {
    if IsDigit(b) then Some(b as nat - 48) else if 97 <= b <= 102 then Some(b as nat - 87) else None
  }

  /** The bytes that pairs of lower-case hex digits denote. */
  function Unhex(s: bytes): Option<bytes> {
    if s == [] then Some([])
    else if |s| < 2 || HexValue(s[0]).None? || HexValue(s[1]).None? || Unhex(s[2..]).None? then None
    else Some([(16 * HexValue(s[0]).value + HexValue(s[1]).value) as byte] + Unhex(s[2..]).value)
  }

  lemma {:induction false} UnhexUndoesHex(s: bytes)
    ensures Unhex(Hex(s)) == Some(s)
  {
    if s != [] {
      UnhexUndoesHex(s[1..]);
      assert Hex(s)[2..] == Hex(s[1..]);
      assert [s[0]] + s[1..] == s;
    }
  }

  /** What a printed cell says about the parameter: bytes as the hex digits that denote them, a string as itself, a number
      as its decimal text, a truth value as its word; anything else leaves the cell empty. */
  predicate Means(cell: bytes, a: Arg) {
    match a
    case Raw(raw) => Unhex(cell) == Some(raw)
    case Text(text) => cell == text
    case Num(n) => IsDecimal(cell, n)
    case Flag(true) => cell == [116, 114, 117, 101]
    case Flag(false) => cell == [102, 97, 108, 115, 101]
    case Float(printed) => cell == printed
    case Other => cell == []
  }

  lemma ShownMeans(a: Arg)
    ensures Means(Shown(a), a)
  {
    match a {
      case Raw(raw) => UnhexUndoesHex(raw);
      case Num(n) => ItoaIsDecimal(n);
      case _ =>
    }
  }

  function PrintRow(row: seq<Arg>, split: bytes): bytes {
    if row == [] then [] else Shown(row[0]) + split + PrintRow(row[1..], split)
  }

  function Print(args: seq<seq<Arg>>, newline: bytes, split: bytes): bytes {
    if args == [] then [] else PrintRow(args[0], split) + newline + Print(args[1..], newline, split)
  }

  method MakeParam(newline: bytes, split: bytes, end: bytes, args: seq<seq<Arg>>) returns (buf: bytes)
    ensures buf == Print(args, newline, split) + end
  {
    buf := [];
    for r := 0 to |args|
      invariant buf + Print(args[r..], newline, split) == Print(args, newline, split)
    {
      assert args[r..][0] == args[r] && args[r..][1..] == args[r + 1..];
      ShiftLeft(buf, PrintRow(args[r], split), newline, Print(args[r + 1..], newline, split));
      buf := WriteRow(buf, args[r], split);
      buf := buf + newline;
    }
    assert buf + [] == buf;
    buf := buf + end;
  }

  lemma ShiftLeft(buf: bytes, a: bytes, b: bytes, rest: bytes)
    ensures buf + (a + b + rest) == ((buf + a) + b) + rest
  {}

  method WriteRow(start: bytes, row: seq<Arg>, split: bytes) returns (buf: bytes)
    ensures buf == start + PrintRow(row, split)
  {
    buf := start;
    for c := 0 to |row|
      invariant buf + PrintRow(row[c..], split) == start + PrintRow(row, split)
    {
      assert row[c..][0] == row[c] && row[c..][1..] == row[c + 1..];
      ShiftLeft(buf, Shown(row[c]), split, PrintRow(row[c + 1..], split));
      match row[c] {
        case Raw(raw) => buf := buf + Hex(raw);
        case Text(text) => buf := buf + text;
        case Num(n) => buf := buf + Itoa(n);
        case Flag(b) => buf := buf + (if b then [116, 114, 117, 101] else [102, 97, 108, 115, 101]);
        case Float(printed) => buf := buf + printed;
        case Other => assert buf == buf + [];
      }
      buf := buf + split;
    }
    assert buf + [] == buf;
  }

  // ---------------------------------------------------------------- round trip

  /** A text that no scanner reacts to. */
  ghost predicate Clean(s: bytes, newline: bytes, split: bytes) {
    forall b | b in s :: b != QUOTE && b !in newline && b !in split
  }

  ghost predicate Separators(newline: bytes, split: bytes) {
    && |newline| > 0 && |split| > 0
    && QUOTE !in newline && QUOTE !in split
    && forall b | b in newline :: b !in split
  }

  lemma {:induction false} CleanCell(s: bytes, rest: bytes, newline: bytes, split: bytes)
    requires Separators(newline, split) && Clean(s, newline, split)
    ensures var t := Table(rest, newline, split, false);
      Table(s + rest, newline, split, false) == [Push(s, t[0])] + t[1..]
    decreases |s|
  {
    var t := Table(rest, newline, split, false);
    if s == [] {
      assert s + rest == rest;
      PushNothing(t[0]);
      assert [t[0]] + t[1..] == t;
    } else {
      assert s[0] in s && newline[0] in newline && split[0] in split;
      assert (s + rest)[1..] == s[1..] + rest;
      CleanCell(s[1..], rest, newline, split);
      PushPush([s[0]], s[1..], t[0]);
      assert [s[0]] + s[1..] == s;
    }
  }

  /** The cells a printed row comes back as: its own, then an empty one. */
  function RowBack(row: seq<Arg>): (cells: seq<bytes>)
    ensures |cells| == |row| + 1
  {
    if row == [] then [[]] else [Shown(row[0])] + RowBack(row[1..])
  }

  function RowsBack(args: seq<seq<Arg>>, end: bytes): (t: seq<seq<bytes>>)
    ensures |t| == |args| + 1
  {
    if args == [] then [[end]] else [RowBack(args[0])] + RowsBack(args[1..], end)
  }

  ghost predicate CleanRow(row: seq<Arg>, newline: bytes, split: bytes) {
    forall c | 0 <= c < |row| :: Clean(Shown(row[c]), newline, split)
  }

  lemma {:induction false} RowComesBack(row: seq<Arg>, rest: bytes, newline: bytes, split: bytes)
    requires Separators(newline, split) && CleanRow(row, newline, split)
    ensures Table(PrintRow(row, split) + (newline + rest), newline, split, false)
         == [RowBack(row)] + Table(rest, newline, split, false)
    ensures (forall c | 0 <= c < |row| :: Means(RowBack(row)[c], row[c])) && RowBack(row)[|row|] == []
    decreases |row|
  {
    RowBackAt(row);
    if row == [] {
      var s := newline + rest;
      assert newline[0] in newline;
      assert s[|newline|..] == rest;
      assert PrintRow(row, split) + s == s;
    } else {
      var tail := PrintRow(row[1..], split) + (newline + rest);
      RowComesBack(row[1..], rest, newline, split);
      var cell, t := Shown(row[0]), Table(tail, newline, split, false);
      assert PrintRow(row, split) + (newline + rest) == cell + (split + tail) by {
        Regroup(cell, split, PrintRow(row[1..], split), newline + rest);
      }
      assert Table(split + tail, newline, split, false) == [[[]] + t[0]] + t[1..] by {
        assert split[0] in split && newline[0] in newline;
        assert (split + tail)[|split|..] == tail;
      }
      CleanCell(cell, split + tail, newline, split);
      assert cell + [] == cell;
    }
  }

  lemma {:induction false} PrintedTable(args: seq<seq<Arg>>, end: bytes, newline: bytes, split: bytes)
    requires Separators(newline, split) && Clean(end, newline, split)
    requires forall r | 0 <= r < |args| :: CleanRow(args[r], newline, split)
    ensures Table(Print(args, newline, split) + end, newline, split, false) == RowsBack(args, end)
    decreases |args|
  {
    if args == [] {
      assert Print(args, newline, split) + end == end && end + [] == end;
      CleanCell(end, [], newline, split);
      assert Table([], newline, split, false) == [[[]]];
      assert Push(end, [[]]) == [end];
      assert RowsBack(args, end) == [[end]] + [];
    } else {
      var rest := Print(args[1..], newline, split);
      PrintedTable(args[1..], end, newline, split);
      RowComesBack(args[0], rest + end, newline, split);
      Regroup(PrintRow(args[0], split), newline, rest, end);
    }
  }

  lemma Regroup(a: bytes, b: bytes, c: bytes, d: bytes)
    ensures (a + b + c) + d == a + (b + (c + d))
  {}

  /** `ParseResponse` undoes `MakeParam`: every cell comes back, each row gains one empty cell and is
      padded with nil, and the end string makes one final row. */
  lemma ParseUndoesPrint(args: seq<seq<Arg>>, end: bytes, newline: bytes, split: bytes)
    requires Separators(newline, split) && Clean(end, newline, split)
    requires forall r | 0 <= r < |args| :: CleanRow(args[r], newline, split)
    ensures ParsedTable(Print(args, newline, split) + end, newline, split) == RowsBack(args, end)
    ensures var rows := PadTable(ParsedTable(Print(args, newline, split) + end, newline, split));
      && |rows| == |args| + 1
      && (forall r, c | 0 <= r < |args| && 0 <= c < |rows[r]| ::
            rows[r][c] == if c < |args[r]| then Some(Shown(args[r][c])) else if c == |args[r]| then Some([]) else None)
      && (forall c | 0 <= c < |rows[|args|]| :: rows[|args|][c] == if c == 0 then Some(end) else None)
      && (forall r | 0 <= r < |args| :: |args[r]| < |rows[r]| == |rows[|args|]|)
      && (forall r, c | 0 <= r < |args| && 0 <= c < |args[r]| :: rows[r][c].Some? && Means(rows[r][c].value, args[r][c]))
  {
    DisjointSeparators(newline, split);
    TwoLevelsAreOnePass(Print(args, newline, split) + end, newline, split, false);
    PrintedTable(args, end, newline, split);
    RowsBackAt(args, end);
    WidthIsTheLongestRow(RowsBack(args, end));
    forall r | 0 <= r < |args|
      ensures forall c | 0 <= c < |args[r]| :: RowBack(args[r])[c] == Shown(args[r][c]) && Means(Shown(args[r][c]), args[r][c])
      ensures RowBack(args[r])[|args[r]|] == []
    {
      RowBackAt(args[r]);
    }
  }

  lemma {:induction false} RowBackAt(row: seq<Arg>)
    ensures forall c | 0 <= c < |row| :: RowBack(row)[c] == Shown(row[c]) && Means(RowBack(row)[c], row[c])
    ensures RowBack(row)[|row|] == []
  {
    if row != [] {
      RowBackAt(row[1..]);
      ShownMeans(row[0]);
      forall c | 0 < c <= |row| ensures RowBack(row)[c] == RowBack(row[1..])[c - 1] {}
    }
  }

  lemma {:induction false} RowsBackAt(args: seq<seq<Arg>>, end: bytes)
    ensures forall r | 0 <= r < |args| :: RowsBack(args, end)[r] == RowBack(args[r])
    ensures RowsBack(args, end)[|args|] == [end]
  {
    if args != [] {
      RowsBackAt(args[1..], end);
      forall r | 0 < r <= |args| ensures RowsBack(args, end)[r] == RowsBack(args[1..], end)[r - 1] {}
    }
  }
}
