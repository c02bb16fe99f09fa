/** `CommonUtils`: cutting a command line at spaces outside single and double quotes. */
module QuoteTokens {
  /** Which quote is open. */
  datatype Quote = Closed | Single | Double

  datatype Any = Str(s: string)

  /** The quote state after `c`, and whether `c` belongs to a token. */
  function Next(q: Quote, c: char): Quote {
    if c == '"' && q != Single then (if q == Double then Closed else Double)
    else if c == '\'' && q != Double then (if q == Single then Closed else Single)
    else q
  }

  predicate Kept(q: Quote, c: char) {
    Next(q, c) == q && !(c == ' ' && q == Closed)
  }

  function Flush(current: string): seq<string> {
    if current == [] then [] else [current]
  }

  /** The tokens of `s` when `current` has been collected and `q` is open. */
  function Tokens(s: string, q: Quote, current: string): seq<string>
    decreases |s|
  {
    if s == [] then Flush(current)
    else if Next(q, s[0]) != q then Tokens(s[1..], Next(q, s[0]), current)
    else if s[0] == ' ' && q == Closed then Flush(current) + Tokens(s[1..], q, [])
    else Tokens(s[1..], q, current + [s[0]])
  }

  method SplitRespectQuotesStr(s: string) returns (result: seq<string>)
    ensures result == Tokens(s, Closed, [])
  {
    result := [];
    var current: string := [];
    var inDouble, inSingle := false, false;
    for i := 0 to |s|
      invariant !(inDouble && inSingle)
      invariant Tokens(s, Closed, []) == result + Tokens(s[i..], StateOf(inDouble, inSingle), current)
    {
      assert s[i..][0] == s[i] && s[i..][1..] == s[i + 1..];
      var r := s[i];
      if r == '"' && !inSingle {
        inDouble := !inDouble;
        continue;
      } else if r == '\'' && !inDouble {
        inSingle := !inSingle;
        continue;
      } else if r == ' ' && !inDouble && !inSingle {
        if |current| > 0 {
          result := result + [current];
          current := [];
        }
        continue;
      }
      current := current + [r];
    }
    if |current| > 0 {
      result := result + [current];
    }
  }

  function StateOf(inDouble: bool, inSingle: bool): Quote {
    if inDouble then Double else if inSingle then Single else Closed
  }

  function Boxed(ts: seq<string>): seq<Any> {
    seq(|ts|, i requires 0 <= i < |ts| => Str(ts[i]))
  }

  /** The `any` version returns the same tokens, boxed. */
  method SplitRespectQuotesAny(s: string) returns (result: seq<Any>)
    ensures result == Boxed(Tokens(s, Closed, []))
    ensures |result| == |Tokens(s, Closed, [])| && forall i | 0 <= i < |result| :: result[i] == Str(Tokens(s, Closed, [])[i])
  {
    result := [];
    ghost var plain: seq<string> := [];
    var current: string := [];
    var inDouble, inSingle := false, false;
    for i := 0 to |s|
      invariant !(inDouble && inSingle)
      invariant result == Boxed(plain)
      invariant Tokens(s, Closed, []) == plain + Tokens(s[i..], StateOf(inDouble, inSingle), current)
    {
      assert s[i..][0] == s[i] && s[i..][1..] == s[i + 1..];
      var r := s[i];
      if r == '"' && !inSingle {
        inDouble := !inDouble;
        continue;
      } else if r == '\'' && !inDouble {
        inSingle := !inSingle;
        continue;
      } else if r == ' ' && !inDouble && !inSingle {
        if |current| > 0 {
          result := result + [Str(current)];
          plain := plain + [current];
          current := [];
        }
        continue;
      }
      current := current + [r];
    }
    if |current| > 0 {
      result := result + [Str(current)];
      plain := plain + [current];
    }
  }

  /** No token is empty. */
  lemma {:induction false} TokensAreNonEmpty(s: string, q: Quote, current: string)
    ensures forall t | t in Tokens(s, q, current) :: t != []
    decreases |s|
  {
    if s != [] {
      TokensAreNonEmpty(s[1..], Next(q, s[0]), current);
      TokensAreNonEmpty(s[1..], q, []);
      TokensAreNonEmpty(s[1..], q, current + [s[0]]);
    }
  }

  function Concat(ts: seq<string>): string {
    if ts == [] then [] else ts[0] + Concat(ts[1..])
  }

  /** What is left of `s` without the quotes that open or close and the spaces outside quotes. */
  function Content(s: string, q: Quote): string
    decreases |s|
  {
    if s == [] then [] else (if Kept(q, s[0]) then [s[0]] else []) + Content(s[1..], Next(q, s[0]))
  }

  /** Nothing else is lost, duplicated or reordered. */
  lemma {:induction false} TokensKeepTheContent(s: string, q: Quote, current: string)
    ensures Concat(Tokens(s, q, current)) == current + Content(s, q)
    decreases |s|
  {
    if s == [] {
    } else if Next(q, s[0]) != q {
      TokensKeepTheContent(s[1..], Next(q, s[0]), current);
    } else if s[0] == ' ' && q == Closed {
      TokensKeepTheContent(s[1..], q, []);
      assert [] + Content(s[1..], q) == Content(s[1..], q);
      if current != [] {
        assert Tokens(s, q, current)[1..] == Tokens(s[1..], q, []);
      } else {
        assert Tokens(s, q, current) == Tokens(s[1..], q, []);
      }
    } else {
      TokensKeepTheContent(s[1..], q, current + [s[0]]);
      assert (current + [s[0]]) + Content(s[1..], q) == current + ([s[0]] + Content(s[1..], q));
    }
  }

  // ---------------------------------------------------------------- where the cuts fall

  function EndState(s: string, q: Quote): Quote {
    if s == [] then q else EndState(s[1..], Next(q, s[0]))
  }

  /** No space of `s` is outside quotes. */
  predicate NoFreeSpace(s: string, q: Quote) {
    s == [] || (!(s[0] == ' ' && q == Closed) && NoFreeSpace(s[1..], Next(q, s[0])))
  }

  function Join(gs: seq<string>): string {
    if gs == [] then [] else if |gs| == 1 then gs[0] else gs[0] + " " + Join(gs[1..])
  }

  /** The pieces are separated by spaces outside quotes and hold no other such space. */
  predicate CutAtFreeSpaces(gs: seq<string>, q: Quote) {
    && gs != [] && NoFreeSpace(gs[0], q)
    && (|gs| > 1 ==> EndState(gs[0], q) == Closed && CutAtFreeSpaces(gs[1..], Closed))
  }

  /** The contents of the pieces, empty ones left out. */
  function Contents(gs: seq<string>, q: Quote): seq<string> {
    if gs == [] then [] else Flush(Content(gs[0], q)) + Contents(gs[1..], Closed)
  }

  /** The pieces between spaces outside quotes. */
  function Pieces(s: string, q: Quote): (gs: seq<string>)
    ensures gs != []
  {
    if s == [] then [[]]
    else if s[0] == ' ' && q == Closed then [[]] + Pieces(s[1..], Closed)
    else
      var rest := Pieces(s[1..], Next(q, s[0]));
      [[s[0]] + rest[0]] + rest[1..]
  }

  lemma LongerFirstPiece(c: char, gs: seq<string>, q: Quote)
    requires CutAtFreeSpaces(gs, Next(q, c)) && !(c == ' ' && q == Closed)
    ensures var hs := [[c] + gs[0]] + gs[1..];
      Join(hs) == [c] + Join(gs) && CutAtFreeSpaces(hs, q)
  {
    var hs := [[c] + gs[0]] + gs[1..];
    assert hs[0] == [c] + gs[0] && hs[1..] == gs[1..];
    if |gs| > 1 {
      assert ([c] + gs[0]) + " " + Join(gs[1..]) == [c] + (gs[0] + " " + Join(gs[1..]));
    }
  }

  lemma {:induction false} PiecesAreACut(s: string, q: Quote)
    ensures Join(Pieces(s, q)) == s && CutAtFreeSpaces(Pieces(s, q), q)
    decreases |s|
  {
    if s != [] {
      if s[0] == ' ' && q == Closed {
        PiecesAreACut(s[1..], Closed);
        assert s == " " + s[1..];
      } else {
        PiecesAreACut(s[1..], Next(q, s[0]));
        LongerFirstPiece(s[0], Pieces(s[1..], Next(q, s[0])), q);
        assert s == [s[0]] + s[1..];
      }
    }
  }

  lemma ShorterFirstPiece(gs: seq<string>, q: Quote)
    requires CutAtFreeSpaces(gs, q) && gs[0] != []
    ensures var hs := [gs[0][1..]] + gs[1..];
      && Join(gs) == [gs[0][0]] + Join(hs) && Join(gs)[1..] == Join(hs)
      && CutAtFreeSpaces(hs, Next(q, gs[0][0])) && !(gs[0][0] == ' ' && q == Closed)
  {
    var hs := [gs[0][1..]] + gs[1..];
    assert hs[1..] == gs[1..] && gs[0] == [gs[0][0]] + hs[0];
    if |gs| > 1 {
      assert ([gs[0][0]] + hs[0]) + " " + Join(gs[1..]) == [gs[0][0]] + (hs[0] + " " + Join(gs[1..]));
    }
  }

  /** There is no other cut. */
  lemma {:induction false} CutIsUnique(gs: seq<string>, q: Quote)
    requires CutAtFreeSpaces(gs, q)
    ensures Pieces(Join(gs), q) == gs
    decreases |gs|, |Join(gs)|
  {
    var s := Join(gs);
    if gs[0] == [] {
      if |gs| > 1 {
        assert gs == [[]] + gs[1..];
        CutIsUnique(gs[1..], Closed);
        assert s[1..] == Join(gs[1..]);
      }
    } else {
      var hs := [gs[0][1..]] + gs[1..];
      ShorterFirstPiece(gs, q);
      CutIsUnique(hs, Next(q, s[0]));
      assert [s[0]] + hs[0] == gs[0] && hs[1..] == gs[1..];
    }
  }

  lemma {:induction false} TokensOfPieces(s: string, q: Quote, current: string)
    ensures var gs := Pieces(s, q);
      Tokens(s, q, current) == Flush(current + Content(gs[0], q)) + Contents(gs[1..], Closed)
    decreases |s|
  {
    if s == [] {
      assert current + [] == current;
    } else if s[0] == ' ' && q == Closed {
      TokensOfPieces(s[1..], Closed, []);
      var rest := Pieces(s[1..], Closed);
      assert Pieces(s, q)[1..] == rest && current + [] == current && [] + Content(rest[0], Closed) == Content(rest[0], Closed);
    } else {
      var rest, kept := Pieces(s[1..], Next(q, s[0])), if Kept(q, s[0]) then [s[0]] else [];
      TokensOfPieces(s[1..], Next(q, s[0]), current + kept);
      assert current + [] == current;
      assert Pieces(s, q)[1..] == rest[1..] && Pieces(s, q)[0] == [s[0]] + rest[0];
      ContentOneMore(s[0], rest[0], q, current);
    }
  }

  lemma ContentOneMore(c: char, g: string, q: Quote, current: string)
    ensures var kept := if Kept(q, c) then [c] else [];
      current + Content([c] + g, q) == (current + kept) + Content(g, Next(q, c))
  {
    assert ([c] + g)[0] == c && ([c] + g)[1..] == g;
    var kept := if Kept(q, c) then [c] else [];
    assert (current + kept) + Content(g, Next(q, c)) == current + (kept + Content(g, Next(q, c)));
  }

  /** Reference definition of the tokenizer: cut the text at the spaces outside quotes, and at no other place; the
      tokens are the contents of the pieces that are not empty. There is exactly one such cut. */
  lemma TokensAreTheCutContents(s: string, ts: seq<string>)
    ensures ts == Tokens(s, Closed, []) <==>
      exists gs :: Join(gs) == s && CutAtFreeSpaces(gs, Closed) && ts == Contents(gs, Closed)
  {
    var ps := Pieces(s, Closed);
    PiecesAreACut(s, Closed);
    TokensOfPieces(s, Closed, []);
    assert [] + Content(ps[0], Closed) == Content(ps[0], Closed);
    assert Tokens(s, Closed, []) == Contents(ps, Closed);
    if gs :| Join(gs) == s && CutAtFreeSpaces(gs, Closed) && ts == Contents(gs, Closed) {
      CutIsUnique(gs, Closed);
    }
  }

  // ---------------------------------------------------------------- wrapping

  /** Each text wrapped in the quote that does not occur in it, joined with spaces. */
  datatype Wrapped = Wrapped(text: string, quote: Quote)

  predicate Wrappable(w: Wrapped) {
    match w.quote
    case Closed => false
    case Single => '\'' !in w.text
    case Double => '"' !in w.text
  }

  function QuoteChar(q: Quote): char {
    if q == Single then '\'' else '"'
  }

  function WrapAll(ws: seq<Wrapped>): string {
    if ws == [] then []
    else
      var w := [QuoteChar(ws[0].quote)] + ws[0].text + [QuoteChar(ws[0].quote)];
      if |ws| == 1 then w else w + " " + WrapAll(ws[1..])
  }

  function NonEmptyTexts(ws: seq<Wrapped>): seq<string> {
    if ws == [] then [] else Flush(ws[0].text) + NonEmptyTexts(ws[1..])
  }

  lemma {:induction false} InsideQuotes(text: string, rest: string, q: Quote, current: string)
    requires Wrappable(Wrapped(text, q))
    ensures Tokens(text + rest, q, current) == Tokens(rest, q, current + text)
    decreases |text|
  {
    if text == [] {
      assert text + rest == rest && current + text == current;
    } else {
      assert (text + rest)[1..] == text[1..] + rest;
      assert text[0] in text;
      InsideQuotes(text[1..], rest, q, current + [text[0]]);
      assert (current + [text[0]]) + text[1..] == current + text;
    }
  }

  lemma WrappedToken(w: Wrapped, rest: string)
    requires Wrappable(w)
    ensures Tokens([QuoteChar(w.quote)] + w.text + [QuoteChar(w.quote)] + rest, Closed, []) == Tokens(rest, Closed, w.text)
  {
    var qc := QuoteChar(w.quote);
    var s := [qc] + w.text + [qc] + rest;
    assert s[0] == qc && s[1..] == w.text + ([qc] + rest);
    InsideQuotes(w.text, [qc] + rest, w.quote, []);
    assert [] + w.text == w.text && ([qc] + rest)[1..] == rest;
  }

  /** The tokenizer undoes the wrapping, except that an empty text leaves no token. */
  lemma {:induction false} UnwrapWrapped(ws: seq<Wrapped>)
    requires forall w | w in ws :: Wrappable(w)
    ensures Tokens(WrapAll(ws), Closed, []) == NonEmptyTexts(ws)
  {
    if ws != [] {
      assert ws[0] in ws;
      if |ws| == 1 {
        WrappedToken(ws[0], []);
        assert WrapAll(ws) == WrapAll(ws) + [];
      } else {
        var rest := WrapAll(ws[1..]);
        WrappedToken(ws[0], " " + rest);
        UnwrapWrapped(ws[1..]);
        var qc := [QuoteChar(ws[0].quote)];
        assert (qc + ws[0].text + qc) + " " + rest == qc + ws[0].text + qc + (" " + rest);
        assert (" " + rest)[0] == ' ' && (" " + rest)[1..] == rest;
      }
    }
  }

  function Texts(ws: seq<Wrapped>): seq<string> {
    seq(|ws|, i requires 0 <= i < |ws| => ws[i].text)
  }

  /** All texts come back, in order, exactly when none of them is empty. */
  lemma UnwrapIsExactIffNonEmpty(ws: seq<Wrapped>)
    requires forall w | w in ws :: Wrappable(w)
    ensures Tokens(WrapAll(ws), Closed, []) == Texts(ws) <==> forall w | w in ws :: w.text != []
  {
    UnwrapWrapped(ws);
    TokensAreNonEmpty(WrapAll(ws), Closed, []);
    if w :| w in ws && w.text == [] {
      var i :| 0 <= i < |ws| && ws[i] == w;
      assert Texts(ws)[i] == [] && Texts(ws)[i] in Texts(ws);
    } else {
      AllTextsStay(ws);
    }
  }

  lemma {:induction false} AllTextsStay(ws: seq<Wrapped>)
    requires forall w | w in ws :: w.text != []
    ensures NonEmptyTexts(ws) == Texts(ws)
  {
    if ws != [] {
      assert ws[0] in ws;
      AllTextsStay(ws[1..]);
    }
  }

  // ---------------------------------------------------------------- plain and mixed words

  /** A stretch of a word: text free of quotes and spaces, or text in quotes that it does not hold. */
  datatype Part = Plain(text: string) | Quoted(w: Wrapped)

  /** A word behind `gap` spaces, made of parts with nothing between them. */
  datatype Word = Word(gap: nat, parts: seq<Part>)

  predicate GoodPart(p: Part) {
    match p
    case Plain(text) => forall c | c in text :: c != ' ' && c != '"' && c != '\''
    case Quoted(w) => Wrappable(w)
  }

  function WrittenPart(p: Part): string {
    match p
    case Plain(text) => text
    case Quoted(w) => [QuoteChar(w.quote)] + w.text + [QuoteChar(w.quote)]
  }

  function PartText(p: Part): string {
    if p.Plain? then p.text else p.w.text
  }

  function WrittenParts(ps: seq<Part>): string {
    if ps == [] then [] else WrittenPart(ps[0]) + WrittenParts(ps[1..])
  }

  /** What a word says: the texts of its parts, without the quotes around them. */
  function WordText(ps: seq<Part>): string {
    if ps == [] then [] else PartText(ps[0]) + WordText(ps[1..])
  }

  function Spaces(n: nat): string {
    seq(n, _ => ' ')
  }

  /** The command line: each word behind its spaces, then `tail` spaces. */
  function Written(ws: seq<Word>, tail: nat): string {
    if ws == [] then Spaces(tail) else Spaces(ws[0].gap) + (WrittenParts(ws[0].parts) + Written(ws[1..], tail))
  }

  function WordTexts(ws: seq<Word>): seq<string> {
    seq(|ws|, i requires 0 <= i < |ws| => WordText(ws[i].parts))
  }

  predicate GoodWord(w: Word) {
    forall p | p in w.parts :: GoodPart(p)
  }

  lemma {:induction false} PlainScan(text: string, rest: string, current: string)
    requires GoodPart(Plain(text))
    ensures Tokens(text + rest, Closed, current) == Tokens(rest, Closed, current + text)
    decreases |text|
  {
    if text == [] {
      assert text + rest == rest && current + text == current;
    } else {
      assert (text + rest)[1..] == text[1..] + rest && text[0] in text;
      assert forall c | c in text[1..] :: c in text;
      PlainScan(text[1..], rest, current + [text[0]]);
      assert (current + [text[0]]) + text[1..] == current + text;
    }
  }

  lemma PartScan(p: Part, rest: string, current: string)
    requires GoodPart(p)
    ensures Tokens(WrittenPart(p) + rest, Closed, current) == Tokens(rest, Closed, current + PartText(p))
  {
    match p {
      case Plain(text) => PlainScan(text, rest, current);
      case Quoted(w) =>
        var qc := [QuoteChar(w.quote)];
        var s := WrittenPart(p) + rest;
        assert s[0] == qc[0] && s[1..] == w.text + (qc + rest);
        InsideQuotes(w.text, qc + rest, w.quote, current);
        assert (qc + rest)[1..] == rest;
    }
  }

  lemma {:induction false} PartsScan(ps: seq<Part>, rest: string, current: string)
    requires forall p | p in ps :: GoodPart(p)
    ensures Tokens(WrittenParts(ps) + rest, Closed, current) == Tokens(rest, Closed, current + WordText(ps))
    decreases |ps|
  {
    if ps == [] {
      assert WrittenParts(ps) + rest == rest && current + WordText(ps) == current;
    } else {
      var next := WrittenParts(ps[1..]) + rest;
      Associate(WrittenPart(ps[0]), WrittenParts(ps[1..]), rest);
      PartScan(ps[0], next, current);
      PartsScan(ps[1..], rest, current + PartText(ps[0]));
      Associate(current, PartText(ps[0]), WordText(ps[1..]));
    }
  }

  lemma Associate(a: string, b: string, c: string)
    ensures a + (b + c) == (a + b) + c
  {}

  lemma {:induction false} SpacesScan(n: nat, rest: string, current: string)
    requires n >= 1 || current == []
    ensures Tokens(Spaces(n) + rest, Closed, current) == Flush(current) + Tokens(rest, Closed, [])
    decreases n
  {
    if n == 0 {
      assert Spaces(n) + rest == rest;
    } else {
      assert (Spaces(n) + rest)[0] == ' ' && (Spaces(n) + rest)[1..] == Spaces(n - 1) + rest;
      SpacesScan(n - 1, rest, []);
    }
  }

  function Said(ws: seq<Word>): seq<string> {
    if ws == [] then [] else Flush(WordText(ws[0].parts)) + Said(ws[1..])
  }

  lemma {:induction false} WordsScan(ws: seq<Word>, tail: nat, current: string)
    requires forall w | w in ws :: GoodWord(w)
    requires (ws == [] || ws[0].gap >= 1 || current == []) && forall i | 1 <= i < |ws| :: ws[i].gap >= 1
    ensures Tokens(Written(ws, tail), Closed, current) == Flush(current) + Said(ws)
    decreases |ws|
  {
    if ws == [] {
      assert Spaces(tail) + [] == Spaces(tail);
      if tail >= 1 {
        SpacesScan(tail, [], current);
      }
    } else {
      assert ws[0] in ws && forall w | w in ws[1..] :: w in ws;
      OneWord(ws[0], Written(ws[1..], tail), current);
      WordsScan(ws[1..], tail, WordText(ws[0].parts));
    }
  }

  lemma OneWord(w: Word, rest: string, current: string)
    requires GoodWord(w) && (w.gap >= 1 || current == [])
    ensures Tokens(Spaces(w.gap) + (WrittenParts(w.parts) + rest), Closed, current) ==
      Flush(current) + Tokens(rest, Closed, WordText(w.parts))
  {
    SpacesScan(w.gap, WrittenParts(w.parts) + rest, current);
    PartsScan(w.parts, rest, []);
    assert [] + WordText(w.parts) == WordText(w.parts);
  }

  lemma {:induction false} SaidAll(ws: seq<Word>)
    requires forall w | w in ws :: WordText(w.parts) != []
    ensures Said(ws) == WordTexts(ws)
  {
    if ws != [] {
      assert ws[0] in ws;
      SaidAll(ws[1..]);
    }
  }

  /** Words separated by any number of spaces, plain, in quotes of either kind, or mixed of such parts: the tokens are exactly
      what the words say, if none says nothing. */
  lemma WordsComeBack(ws: seq<Word>, tail: nat)
    requires forall w | w in ws :: GoodWord(w) && WordText(w.parts) != []
    requires forall i | 1 <= i < |ws| :: ws[i].gap >= 1
    ensures Tokens(Written(ws, tail), Closed, []) == WordTexts(ws)
  {
    WordsScan(ws, tail, []);
    SaidAll(ws);
  }
}
