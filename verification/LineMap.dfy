/** tools/repository_audit/apply_phase2_moves.py, `pos`: from the (line, UTF-8 column) coordinates
    of Python's syntax tree to a character offset in the text.

    The text was read in text mode, so it has no carriage returns: Python's parser ends a line
    at '\n' only, while `str.splitlines` also ends it at eight other separators. */
module LineMap {
  import opened Basics
  import opened Sorting
  import opened Utf8
  import opened SourceRewrite

  type Splitter = char -> bool

  predicate Exotic(c: char) {
    c in ['\U{0B}', '\U{0C}', '\U{1C}', '\U{1D}', '\U{1E}', '\U{85}', '\U{2028}', '\U{2029}']
  }

  /** By their code points: VT, FF, FS, GS, RS, NEL, LS and PS. */
  lemma ExoticCodes(c: char)
    ensures Exotic(c) <==> c as int in {11, 12, 28, 29, 30, 133, 8232, 8233}
  {
    assert Exotic(c) <==> c in {11 as char, 12 as char, 28 as char, 29 as char, 30 as char, 133 as char,
                                8232 as char, 8233 as char};
  }

  /** What `str.splitlines` breaks at. */
  function SplitlinesBreak(): Splitter { c => c == '\n' || Exotic(c) }

  /** Lines with their ends kept. */
  function Split(text: string, ends: Splitter): (lines: seq<string>)
    ensures text != [] ==> lines != []
  {
    if text == [] then []
    else
      var rest := Split(text[1..], ends);
      if ends(text[0]) || rest == [] then [[text[0]]] + rest
      else [[text[0]] + rest[0]] + rest[1..]
  }

  /** `len(raw.encode()[:col].decode())`; None where the cut splits a character. */
  function CharsWithin(raw: string, col: nat): Option<nat> {
    if col == 0 || raw == [] then Some(0)
    else if col < |Bytes(raw[0])| then None
    else match CharsWithin(raw[1..], col - |Bytes(raw[0])|)
      case Some(n) => Some(n + 1)
      case None => None
  }

  /** A column inside the line is a number of characters exactly when those take that many bytes. */
  lemma {:induction false} CharsWithinExactly(raw: string, col: nat, n: nat)
    requires col <= |Encode(raw)|
    ensures CharsWithin(raw, col) == Some(n) <==> Ends(raw, col, n)
  {
    if n > 0 && n <= |raw| { EncodeStep(raw, n); }
    if col != 0 && col >= |Bytes(raw[0])| && n > 0 { CharsWithinExactly(raw[1..], col - |Bytes(raw[0])|, n - 1); }
  }

  lemma {:induction false} ColumnBeyond(raw: string, col: nat)
    requires col >= |Encode(raw)|
    ensures CharsWithin(raw, col) == Some(|raw|)
  {
    if raw != [] { ColumnBeyond(raw[1..], col - |Bytes(raw[0])|); }
  }

  /** It is what encoding the line, cutting the bytes at the column and decoding them again does. */
  lemma CharsWithinDecodes(raw: string, col: nat)
    ensures CharsWithin(raw, col)
         == match Decode(Encode(raw)[..MinInt(col, |Encode(raw)|)]) case None => None case Some(text) => Some(|text|)
  {
    if col >= |Encode(raw)| {
      ColumnBeyond(raw, col);
      assert Encode(raw)[..|Encode(raw)|] == Encode(raw);
      DecodeEncode(raw);
    } else {
      CutDecodes(raw, col);
      if Decode(Encode(raw)[..col]).Some? {
        var n: nat :| Ends(raw, col, n);
        CharsWithinExactly(raw, col, n);
      } else if CharsWithin(raw, col).Some? {
        CharsWithinExactly(raw, col, CharsWithin(raw, col).value);
      }
    }
  }

  function Length(lines: seq<string>): nat {
    if lines == [] then 0 else |lines[0]| + Length(lines[1..])
  }

  /** `pos(line, col)`: None for a missing line or a cut inside a character. */
  function Pos(lines: seq<string>, line: nat, col: nat): Option<nat> {
    if line < 1 || line > |lines| then None
    else match CharsWithin(lines[line - 1], col)
      case Some(n) => Some(Length(lines[..line - 1]) + n)
      case None => None
  }

  datatype Coord = Coord(line: nat, col: nat)

  /** The parser's coordinates of character offset k: lines counted from 1, columns in bytes. */
  function ParserCoord(text: string, k: nat): (c: Coord)
    requires k <= |text|
    ensures c.line >= 1
  {
    if k == 0 then Coord(1, 0)
    else
      var c := ParserCoord(text[1..], k - 1);
      if text[0] == '\n' then Coord(c.line + 1, c.col)
      else if c.line == 1 then Coord(1, c.col + |Bytes(text[0])|)
      else c
  }

  function Newlines(text: string): nat {
    if text == [] then 0 else (if text[0] == '\n' then 1 else 0) + Newlines(text[1..])
  }

  /** What follows the last newline. */
  function LastLine(text: string): string { if '\n' !in text then text else LastLine(text[1..]) }

  lemma {:induction false} NewlinesIn(text: string)
    ensures '\n' in text <==> Newlines(text) > 0
  {
    if text != [] { NewlinesIn(text[1..]); }
  }

  /** The line of an offset counts the newlines before it, and its column the bytes since the last one. */
  lemma {:induction false} ParserCoordMeans(text: string, k: nat)
    requires k <= |text|
    ensures ParserCoord(text, k) == Coord(1 + Newlines(text[..k]), |Encode(LastLine(text[..k]))|)
  {
    if k > 0 {
      var before, rest := text[..k], text[1..][..k - 1];
      ParserCoordMeans(text[1..], k - 1);
      assert before[0] == text[0] && before[1..] == rest;
      NewlinesIn(rest);
      if '\n' !in rest && text[0] != '\n' { assert '\n' !in before; }
    }
  }

  /** Offsets that lie on a line: any character's, and the end of an unterminated last line. */
  predicate OnLine(text: string, k: nat) {
    k < |text| || (k == |text| && text != [] && text[|text| - 1] != '\n')
  }

  function Push(o: Option<nat>): Option<nat> {
    match o case Some(n) => Some(n + 1) case None => None
  }

  lemma PosShift(head: string, lines: seq<string>, line: nat, col: nat)
    requires line >= 1
    ensures Pos([head] + lines, line + 1, col)
         == match Pos(lines, line, col) case Some(n) => Some(|head| + n) case None => None
  {
    if line <= |lines| {
      assert ([head] + lines)[..line] == [head] + lines[..line - 1];
      assert ([head] + lines[..line - 1])[1..] == lines[..line - 1];
    }
  }

  lemma PosGrowHead(c: char, lines: seq<string>, line: nat, col: nat)
    requires lines != [] && line >= 1
    ensures var grown := [[c] + lines[0]] + lines[1..];
            Pos(grown, line, if line == 1 then col + |Bytes(c)| else col) == Push(Pos(lines, line, col))
  {
    var grown := [[c] + lines[0]] + lines[1..];
    if line == 1 {
      assert grown[..0] == [] && lines[..0] == [];
    } else if line <= |lines| {
      assert lines == [lines[0]] + lines[1..];
      PosShift([c] + lines[0], lines[1..], line - 1, col);
      PosShift(lines[0], lines[1..], line - 1, col);
    }
  }

  /** Prefixing a character that does not end the parser's line, or that both sides agree ends
      one, moves every position by one. */
  lemma PosStep(text: string, ends: Splitter, k: nat)
    requires |text| > 1 && k < |text| && ends('\n')
    requires ends(text[0]) ==> text[0] == '\n'
    ensures PutAt(text, ends, k + 1) == Push(PutAt(text[1..], ends, k))
  {
    var d, rest := ParserCoord(text[1..], k), Split(text[1..], ends);
    if text[0] == '\n' {
      PosShift([text[0]], rest, d.line, d.col);
    } else {
      PosGrowHead(text[0], rest, d.line, d.col);
    }
  }

  /** Where `pos` puts offset k, given its parser coordinates. */
  function PutAt(text: string, ends: Splitter, k: nat): Option<nat>
    requires k <= |text|
  {
    var c := ParserCoord(text, k);
    Pos(Split(text, ends), c.line, c.col)
  }

  ghost predicate Recovers(text: string, ends: Splitter, k: nat)
    requires k <= |text|
  {
    PutAt(text, ends, k) == Some(k)
  }

  /** Every character offset of the text is recovered from its parser coordinates. */
  ghost predicate RecoversAll(text: string, ends: Splitter) {
    forall k :: OnLine(text, k) ==> Recovers(text, ends, k)
  }

  lemma PosOfStart(text: string, ends: Splitter)
    requires text != []
    ensures Recovers(text, ends, 0)
  {
    assert Split(text, ends)[..0] == [];
  }

  /** No separator that only `splitlines` knows lies before offset k, other than just before it. */
  ghost predicate Clean(text: string, k: nat)
    requires k <= |text|
  {
    forall i :: 0 <= i < k - 1 ==> !Exotic(text[i])
  }

  lemma CleanTail(text: string, k: nat)
    requires 0 < k <= |text|
    ensures Clean(text, k) <==> (k > 1 ==> !Exotic(text[0])) && Clean(text[1..], k - 1)
  {
    if Clean(text, k) {
      forall i | 0 <= i < k - 2 ensures !Exotic(text[1..][i]) { assert text[1..][i] == text[i + 1]; }
    }
    if (k > 1 ==> !Exotic(text[0])) && Clean(text[1..], k - 1) {
      forall i | 0 <= i < k - 1 ensures !Exotic(text[i]) { if i > 0 { assert text[1..][i - 1] == text[i]; } }
    }
  }

  lemma OneCharacter(text: string, ends: Splitter)
    requires |text| == 1
    ensures text[0] != '\n' ==> Recovers(text, ends, 1)
  {
    assert text[1..] == [] && text == [text[0]];
    assert Split(text, ends) == [[text[0]]];
    if text[0] != '\n' {
      assert ParserCoord(text, 1) == Coord(1, |Bytes(text[0])|);
      assert text[1..] == [] && [text][..0] == [];
      assert CharsWithin(text, |Bytes(text[0])|) == Some(1);
    }
  }

  /** Offset 1 is recovered whatever the first character is. */
  lemma FirstSeparator(text: string)
    requires |text| > 1 && Exotic(text[0])
    ensures Recovers(text, SplitlinesBreak(), 1)
  {
    var a, ends := text[0], SplitlinesBreak();
    assert Split(text, ends)[0] == [a] && Split(text, ends)[..0] == [];
    assert ParserCoord(text, 1) == Coord(1, |Bytes(a)|);
    assert [a][1..] == [] && CharsWithin([a], |Bytes(a)|) == Some(1);
  }

  lemma {:induction false} LineNotEmpty(text: string, ends: Splitter, i: nat)
    requires i < |Split(text, ends)|
    ensures Split(text, ends)[i] != []
  {
    var rest := Split(text[1..], ends);
    if ends(text[0]) || rest == [] {
      if i > 0 { LineNotEmpty(text[1..], ends, i - 1); }
    } else if i > 0 {
      LineNotEmpty(text[1..], ends, i);
    }
  }

  lemma LengthCons(head: string, lines: seq<string>, j: nat)
    requires 0 < j <= |lines| + 1
    ensures Length(([head] + lines)[..j]) == |head| + Length(lines[..j - 1])
  {
    assert ([head] + lines)[..j] == [head] + lines[..j - 1];
    assert ([head] + lines[..j - 1])[1..] == lines[..j - 1];
  }

  /** Lines that `splitlines` counts before the parser's line of offset k end before it: it never sees
      fewer lines than the parser does. */
  lemma {:induction false} LinesBehind(text: string, ends: Splitter, k: nat, j: nat)
    requires k <= |text| && ends('\n') && 0 < j < ParserCoord(text, k).line && j <= |Split(text, ends)|
    ensures Length(Split(text, ends)[..j]) + (if ParserCoord(text, k).col > 0 then 1 else 0) <= k
  {
    var rest := Split(text[1..], ends);
    if ends(text[0]) || rest == [] {
      LengthCons([text[0]], rest, j);
      if j > 1 { LinesBehind(text[1..], ends, k - 1, j - 1); } else { assert rest[..0] == []; }
    } else {
      LinesBehind(text[1..], ends, k - 1, j);
      LengthCons([text[0]] + rest[0], rest[1..], j);
      LengthCons(rest[0], rest[1..], j);
      assert [rest[0]] + rest[1..] == rest;
    }
  }

  /** So the column of offset k on any of those lines is a place before k. */
  lemma EarlierLineMisses(text: string, ends: Splitter, k: nat, j: nat)
    requires k <= |text| && ends('\n') && 0 < j < ParserCoord(text, k).line
    ensures Pos(Split(text, ends), j, ParserCoord(text, k).col) != Some(k)
  {
    var lines, col := Split(text, ends), ParserCoord(text, k).col;
    if j <= |lines| && CharsWithin(lines[j - 1], col).Some? {
      LinesBehind(text, ends, k, j);
      LengthGrows(lines, j - 1, j);
      LineNotEmpty(text, ends, j - 1);
      CharsMonotone(lines[j - 1], col, col);
    }
  }

  /** A separator at the start of the text misplaces every offset after the next character's start. */
  lemma SeparatorMisplaces(text: string, k: nat)
    requires 1 < k <= |text| && Exotic(text[0])
    ensures !Recovers(text, SplitlinesBreak(), k)
  {
    var ends, a := SplitlinesBreak(), text[0];
    var rest, c, d := Split(text[1..], ends), ParserCoord(text, k), ParserCoord(text[1..], k - 1);
    assert Split(text, ends) == [[a]] + rest;
    if c.line == 1 {
      assert d.line == 1 && c.col == d.col + |Bytes(a)|;
      assert [a][1..] == [] && CharsWithin([a], c.col) == Some(1);
      assert Split(text, ends)[..0] == [];
    } else {
      assert d == c;
      PosShift([a], rest, c.line - 1, c.col);
      EarlierLineMisses(text[1..], ends, k - 1, c.line - 1);
    }
  }

  lemma RecoversTail(text: string, k: nat)
    requires 0 < k <= |text| && |text| > 1 && !Exotic(text[0])
    ensures Recovers(text, SplitlinesBreak(), k) <==> Recovers(text[1..], SplitlinesBreak(), k - 1)
  {
    PosStep(text, SplitlinesBreak(), k - 1);
    Pushed(PutAt(text, SplitlinesBreak(), k), PutAt(text[1..], SplitlinesBreak(), k - 1), k);
  }

  lemma Pushed(x: Option<nat>, y: Option<nat>, k: nat)
    requires x == Push(y) && k > 0
    ensures x == Some(k) <==> y == Some(k - 1)
  {}

  /** `pos` recovers a character offset from its parser coordinates exactly when no vertical tab, form
      feed, U+001C..1E, U+0085, U+2028 or U+2029 lies before it, other than just before it. */
  lemma {:induction false} PosExactly(text: string, k: nat)
    requires OnLine(text, k)
    ensures Recovers(text, SplitlinesBreak(), k) <==> Clean(text, k)
  {
    if k == 0 {
      PosOfStart(text, SplitlinesBreak());
    } else if |text| == 1 {
      OneCharacter(text, SplitlinesBreak());
    } else {
      CleanTail(text, k);
      if !Exotic(text[0]) {
        PosExactly(text[1..], k - 1);
        RecoversTail(text, k);
      } else if k == 1 {
        FirstSeparator(text);
      } else {
        SeparatorMisplaces(text, k);
      }
    }
  }

  /** A separator the parser does not know is harmless only where no offset follows it on the
      parser's line. */
  ghost predicate Harmless(text: string, i: nat)
    requires i < |text|
  {
    Exotic(text[i]) ==> i + 1 == |text| || (i + 2 == |text| && text[i + 1] == '\n')
  }

  ghost predicate AllHarmless(text: string) {
    forall i :: 0 <= i < |text| ==> Harmless(text, i)
  }

  /** So it recovers every offset of a text exactly when each such separator is the last character of
      the text or is followed only by a final newline. */
  lemma PosExactlyWhenHarmless(text: string)
    ensures RecoversAll(text, SplitlinesBreak()) <==> AllHarmless(text)
  {
    if AllHarmless(text) {
      forall k: nat | OnLine(text, k) ensures Recovers(text, SplitlinesBreak(), k) {
        forall i | 0 <= i < k - 1 ensures !Exotic(text[i]) { assert Harmless(text, i); }
        PosExactly(text, k);
      }
    } else {
      var i :| 0 <= i < |text| && !Harmless(text, i);
      assert OnLine(text, i + 2);
      PosExactly(text, i + 2);
    }
  }

  // ---- order -------------------------------------------------------------------------------------

  predicate Before(a: Coord, b: Coord) { a.line < b.line || (a.line == b.line && a.col <= b.col) }

  lemma {:induction false} CharsMonotone(raw: string, col: nat, col': nat)
    requires col <= col' && CharsWithin(raw, col).Some? && CharsWithin(raw, col').Some?
    ensures CharsWithin(raw, col).value <= CharsWithin(raw, col').value <= |raw|
  {
    if col != 0 && raw != [] {
      CharsMonotone(raw[1..], col - |Bytes(raw[0])|, col' - |Bytes(raw[0])|);
    } else if col' != 0 && raw != [] {
      CharsMonotone(raw[1..], 0, col' - |Bytes(raw[0])|);
    }
  }

  lemma {:induction false} LengthGrows(lines: seq<string>, i: nat, j: nat)
    requires i < j <= |lines|
    ensures Length(lines[..i]) + |lines[i]| <= Length(lines[..j])
  {
    assert lines[..j][1..] == lines[1..][..j - 1];
    if i > 0 {
      assert lines[..i][1..] == lines[1..][..i - 1];
      LengthGrows(lines[1..], i - 1, j - 1);
    }
  }

  /** However the text was split, `pos` keeps the order of coordinates. */
  lemma PosMonotone(lines: seq<string>, a: Coord, b: Coord)
    requires a.line < b.line || (a.line == b.line && a.col <= b.col)
    requires Pos(lines, a.line, a.col).Some? && Pos(lines, b.line, b.col).Some?
    ensures Pos(lines, a.line, a.col).value <= Pos(lines, b.line, b.col).value
  {
    if a.line < b.line {
      CharsMonotone(lines[a.line - 1], a.col, a.col);
      LengthGrows(lines, a.line - 1, b.line - 1);
    } else {
      CharsMonotone(lines[a.line - 1], a.col, b.col);
    }
  }

  // ---- nodes and their edits ------------------------------------------------------------------------

  const FROMLIST := ", fromlist=[\"*\"]"

  /** A node to rewrite, in characters: where its replacement goes and, for an `__import__` call without
      `fromlist`, where the call ends. */
  datatype Node = Node(start: nat, end: nat, replacement: string, callEnd: Option<nat>) {
    function Last(): nat { if callEnd.Some? then callEnd.value else end }

    function Edits(): seq<Edit> {
      [Edit(start, end, replacement)]
      + (if callEnd.Some? && callEnd.value > 0 then [Edit(callEnd.value - 1, callEnd.value - 1, FROMLIST)] else [])
    }
  }

  /** Rewriting one node: its part of the text becomes the replacement, ... */
  lemma PlainNodeRewritten(text: string, n: Node)
    requires n.start < n.end <= |text| && n.callEnd == None
    ensures Rewritten(text, n.Edits()) == text[0..n.start] + n.replacement + text[n.end..]
  {
    var e := n.Edits()[0];
    assert n.Edits() == [e];
    assert Sorted([e], Le) == [e] by { assert [e][1..] == []; }
    RewriteIsSubstitution(text, [e]);
    SubstituteLast(text, e, 0);
  }

  /** ... and a call without `fromlist` gets one just before its closing parenthesis. */
  lemma CallNodeRewritten(text: string, n: Node, p: nat)
    requires n.start < n.end < p <= |text| && n.callEnd == Some(p)
    ensures Rewritten(text, n.Edits())
         == text[0..n.start] + n.replacement + (text[n.end..p - 1] + ", fromlist=[\"*\"]" + text[p - 1..])
  {
    var e, f := n.Edits()[0], n.Edits()[1];
    assert n.Edits() == [e, f];
    TwoApart(text, e, f);
    SubstituteTwo(text, e, f);
  }

  lemma TwoApart(text: string, e: Edit, f: Edit)
    requires e.start < e.end <= f.start <= f.end <= |text|
    ensures Rewritten(text, [e, f]) == Substitute(text, [e, f], 0)
  {
    TwoSorted(e, f);
    RewriteIsSubstitution(text, [e, f]);
  }

  lemma TwoSorted(e: Edit, f: Edit)
    requires e.start < f.start
    ensures Sorted([e, f], Le) == [e, f]
  {
    LeTotal();
    SortedAlready([e, f], Le);
  }

  lemma SubstituteLast(text: string, e: Edit, from: nat)
    requires from <= e.start <= e.end <= |text|
    ensures Substitute(text, [e], from) == text[from..e.start] + e.text + text[e.end..]
  {
    assert [e][1..] == [];
  }

  lemma SubstituteTwo(text: string, e: Edit, f: Edit)
    requires e.start <= e.end <= f.start <= f.end <= |text|
    ensures Substitute(text, [e, f], 0)
         == text[0..e.start] + e.text + (text[e.end..f.start] + f.text + text[f.end..])
  {
    assert [e, f][1..] == [f];
    SubstituteLast(text, f, e.end);
  }

  /** The edit list, in the order of the nodes. */
  function AllEdits(nodes: seq<Node>): seq<Edit> {
    if nodes == [] then [] else AllEdits(nodes[..|nodes| - 1]) + nodes[|nodes| - 1].Edits()
  }

  ghost predicate Within(a: Node, n: nat) {
    a.start <= a.end <= n && (a.callEnd.Some? ==> 0 < a.callEnd.value <= n && a.end <= a.callEnd.value)
  }

  /** Replaced parts are leaves of the tree: two of them do not overlap, and a call ends before or after
      each of them. */
  ghost predicate Leaves(a: Node, b: Node) {
    && (a.end <= b.start || b.end <= a.start)
    && (a.callEnd.Some? ==> b.end <= a.callEnd.value || a.callEnd.value <= b.start)
    && (b.callEnd.Some? ==> a.end <= b.callEnd.value || b.callEnd.value <= a.start)
  }

  ghost predicate Nested(nodes: seq<Node>, n: nat) {
    && (forall i :: 0 <= i < |nodes| ==> Within(nodes[i], n))
    && (forall i, j :: 0 <= i < j < |nodes| ==> Leaves(nodes[i], nodes[j]))
  }

  /** The insertion before the end of a's call falls inside b's replacement: b ends where the call does,
      and is at least two characters long. */
  predicate Cuts(a: Node, b: Node) { a.callEnd == Some(b.end) && b.start + 1 < b.end }

  lemma OwnApart(a: Node, n: nat)
    requires Within(a, n)
    ensures Apart(a.Edits(), n) <==> !Cuts(a, a)
  {
    var edits := a.Edits();
    if a.callEnd.Some? {
      assert edits == [edits[0], edits[1]];
      assert Disjoint(edits[0], edits[1]) <==> !Cuts(a, a);
    }
  }

  ghost predicate AllDisjoint(x: seq<Edit>, y: seq<Edit>) { forall e, f :: e in x && f in y ==> Disjoint(e, f) }

  lemma PairApart(a: Node, b: Node, n: nat)
    requires Within(a, n) && Within(b, n) && Leaves(a, b)
    ensures AllDisjoint(a.Edits(), b.Edits()) <==> !Cuts(a, b) && !Cuts(b, a)
  {
    var x, y := a.Edits(), b.Edits();
    assert x[0] in x && y[0] in y;
    if a.callEnd.Some? { assert x[1] in x && (Disjoint(x[1], y[0]) <==> !Cuts(a, b)); }
    if b.callEnd.Some? { assert y[1] in y && (Disjoint(x[0], y[1]) <==> !Cuts(b, a)); }
  }

  lemma ApartConcat(x: seq<Edit>, y: seq<Edit>, n: nat)
    ensures Apart(x + y, n) <==> Apart(x, n) && Apart(y, n) && AllDisjoint(x, y)
  {
    var both := x + y;
    if Apart(both, n) {
      forall i, j | 0 <= i < j < |x| ensures Disjoint(x[i], x[j]) { assert both[i] == x[i] && both[j] == x[j]; }
      forall i, j | 0 <= i < j < |y| ensures Disjoint(y[i], y[j]) {
        assert both[|x| + i] == y[i] && both[|x| + j] == y[j];
      }
      forall e, f | e in x && f in y ensures Disjoint(e, f) {
        var i :| 0 <= i < |x| && x[i] == e;
        var j :| 0 <= j < |y| && y[j] == f;
        assert both[i] == e && both[|x| + j] == f;
      }
    }
    if Apart(x, n) && Apart(y, n) && AllDisjoint(x, y) {
      forall i, j | 0 <= i < j < |both| ensures Disjoint(both[i], both[j]) {
        if j < |x| { assert both[i] == x[i] && both[j] == x[j]; }
        else if i < |x| { assert both[i] in x && both[j] in y; }
        else { assert both[i] == y[i - |x|] && both[j] == y[j - |x|]; }
      }
    }
  }

  lemma {:induction false} EditsIn(nodes: seq<Node>, e: Edit)
    ensures e in AllEdits(nodes) <==> exists i :: 0 <= i < |nodes| && e in nodes[i].Edits()
  {
    if nodes != [] {
      var init := nodes[..|nodes| - 1];
      EditsIn(init, e);
      if i :| 0 <= i < |init| && e in init[i].Edits() { assert e in nodes[i].Edits(); }
      if i :| 0 <= i < |nodes| && e in nodes[i].Edits() { assert i < |init| ==> e in init[i].Edits(); }
    }
  }

  lemma DisjointFromAll(nodes: seq<Node>, last: Node)
    ensures AllDisjoint(AllEdits(nodes), last.Edits())
       <==> forall i :: 0 <= i < |nodes| ==> AllDisjoint(nodes[i].Edits(), last.Edits())
  {
    forall e ensures e in AllEdits(nodes) <==> exists i :: 0 <= i < |nodes| && e in nodes[i].Edits() {
      EditsIn(nodes, e);
    }
  }

  ghost predicate NoCuts(nodes: seq<Node>) {
    forall i, j :: 0 <= i < |nodes| && 0 <= j < |nodes| ==> !Cuts(nodes[i], nodes[j])
  }

  lemma NoCutsStep(nodes: seq<Node>)
    requires nodes != []
    ensures var init, last := nodes[..|nodes| - 1], nodes[|nodes| - 1];
            NoCuts(nodes) <==> NoCuts(init) && !Cuts(last, last)
                               && forall i :: 0 <= i < |init| ==> !Cuts(init[i], last) && !Cuts(last, init[i])
  {
    var init, last := nodes[..|nodes| - 1], nodes[|nodes| - 1];
    forall i | 0 <= i < |init| ensures nodes[i] == init[i] {}
  }

  /** The edits of nested nodes do not overlap exactly when no insertion cuts a replacement. */
  lemma {:induction false} ApartExactly(nodes: seq<Node>, n: nat)
    requires Nested(nodes, n)
    ensures Apart(AllEdits(nodes), n) <==> NoCuts(nodes)
  {
    if nodes != [] {
      var init, last := nodes[..|nodes| - 1], nodes[|nodes| - 1];
      ApartExactly(init, n);
      ApartConcat(AllEdits(init), last.Edits(), n);
      DisjointFromAll(init, last);
      OwnApart(last, n);
      forall i | 0 <= i < |init|
        ensures AllDisjoint(init[i].Edits(), last.Edits()) <==> !Cuts(init[i], last) && !Cuts(last, init[i])
      {
        assert Leaves(nodes[i], nodes[|nodes| - 1]);
        PairApart(init[i], last, n);
      }
      NoCutsStep(nodes);
    }
  }

  lemma NestedSubstitute(text: string, nodes: seq<Node>)
    requires Nested(nodes, |text|)
    ensures Apart(AllEdits(nodes), |text|) <==> NoCuts(nodes)
    ensures NoCuts(nodes) ==> Rewritten(text, AllEdits(nodes)) == Substitute(text, Sorted(AllEdits(nodes), Le), 0)
  {
    ApartExactly(nodes, |text|);
    if NoCuts(nodes) { RewriteIsSubstitution(text, AllEdits(nodes)); }
  }

  // ---- from syntax-tree coordinates to the rewritten text ----------------------------------------------

  /** A node to rewrite, in the parser's coordinates. */
  datatype Site = Site(start: Coord, end: Coord, replacement: string, callEnd: Option<Coord>)

  function At(lines: seq<string>, c: Coord): Option<nat> { Pos(lines, c.line, c.col) }

  /** No conversion raises. */
  predicate Placed(lines: seq<string>, s: Site) {
    At(lines, s.start).Some? && At(lines, s.end).Some? && (s.callEnd.Some? ==> At(lines, s.callEnd.value).Some?)
  }

  /** A call never ends where the text begins. */
  predicate Sensible(lines: seq<string>, s: Site) { s.callEnd.Some? ==> At(lines, s.callEnd.value) != Some(0) }

  /** The node in characters, as `pos` converts it. */
  function Converted(lines: seq<string>, s: Site): Node
    requires Placed(lines, s)
  {
    Node(At(lines, s.start).value, At(lines, s.end).value, s.replacement,
         if s.callEnd.None? then None else At(lines, s.callEnd.value))
  }

  ghost predicate AllPlaced(lines: seq<string>, sites: seq<Site>) {
    forall i :: 0 <= i < |sites| ==> Placed(lines, sites[i])
  }

  function AllConverted(lines: seq<string>, sites: seq<Site>): (nodes: seq<Node>)
    requires AllPlaced(lines, sites)
    ensures |nodes| == |sites| && forall i :: 0 <= i < |sites| ==> nodes[i] == Converted(lines, sites[i])
  {
    seq(|sites|, i requires 0 <= i < |sites| && Placed(lines, sites[i]) => Converted(lines, sites[i]))
  }

  /** The edit list, in the order the tree walk meets the nodes; None stands for the exception of a
      coordinate without its line or inside a character. */
  method CollectEdits(lines: seq<string>, sites: seq<Site>) returns (edits: Option<seq<Edit>>)
    requires forall i :: 0 <= i < |sites| ==> Sensible(lines, sites[i])
    ensures edits.Some? <==> AllPlaced(lines, sites)
    ensures edits.Some? ==> edits.value == AllEdits(AllConverted(lines, sites))
  {
    var collected: seq<Edit> := [];
    for i := 0 to |sites|
      invariant AllPlaced(lines, sites[..i]) && collected == AllEdits(AllConverted(lines, sites[..i]))
    {
      if !Placed(lines, sites[i]) { return None; }
      ConvertOneMore(lines, sites, i);
      collected := collected + Converted(lines, sites[i]).Edits();
    }
    assert sites[..|sites|] == sites;
    edits := Some(collected);
  }

  lemma ConvertOneMore(lines: seq<string>, sites: seq<Site>, i: nat)
    requires i < |sites| && AllPlaced(lines, sites[..i]) && Placed(lines, sites[i])
    ensures AllPlaced(lines, sites[..i + 1])
    ensures AllEdits(AllConverted(lines, sites[..i + 1]))
         == AllEdits(AllConverted(lines, sites[..i])) + Converted(lines, sites[i]).Edits()
  {
    var more, nodes := sites[..i + 1], AllConverted(lines, sites[..i]);
    assert more[..i] == sites[..i];
    assert AllConverted(lines, more)[..i] == nodes;
  }

  lemma {:induction false} LengthOfSplit(text: string, ends: Splitter)
    ensures Length(Split(text, ends)) == |text|
  {
    if text != [] {
      LengthOfSplit(text[1..], ends);
      var rest := Split(text[1..], ends);
      if rest == [] || ends(text[0]) {
        assert ([[text[0]]] + rest)[1..] == rest;
      } else {
        assert ([[text[0]] + rest[0]] + rest[1..])[1..] == rest[1..];
      }
    }
  }

  lemma PosInText(text: string, ends: Splitter, line: nat, col: nat)
    requires Pos(Split(text, ends), line, col).Some?
    ensures Pos(Split(text, ends), line, col).value <= |text|
  {
    var lines := Split(text, ends);
    CharsMonotone(lines[line - 1], col, col);
    LengthGrows(lines, line - 1, |lines|);
    assert lines[..|lines|] == lines;
    LengthOfSplit(text, ends);
  }

  /** What the tree says of one node and of two, by the parser's coordinates. */
  predicate Upright(s: Site) {
    Before(s.start, s.end) && (s.callEnd.Some? ==> Before(s.end, s.callEnd.value))
  }

  predicate LeafSites(a: Site, b: Site) {
    && (Before(a.end, b.start) || Before(b.end, a.start))
    && (a.callEnd.Some? ==> Before(b.end, a.callEnd.value) || Before(a.callEnd.value, b.start))
    && (b.callEnd.Some? ==> Before(a.end, b.callEnd.value) || Before(b.callEnd.value, a.start))
  }

  ghost predicate NestedSites(sites: seq<Site>) {
    && (forall i :: 0 <= i < |sites| ==> Upright(sites[i]))
    && (forall i, j :: 0 <= i < j < |sites| ==> LeafSites(sites[i], sites[j]))
  }

  lemma AtMonotone(lines: seq<string>, a: Coord, b: Coord)
    requires Before(a, b) && At(lines, a).Some? && At(lines, b).Some?
    ensures At(lines, a).value <= At(lines, b).value
  {
    PosMonotone(lines, a, b);
  }

  lemma AtInText(text: string, ends: Splitter, c: Coord)
    requires At(Split(text, ends), c).Some?
    ensures At(Split(text, ends), c).value <= |text|
  {
    PosInText(text, ends, c.line, c.col);
  }

  lemma ConvertedUpright(lines: seq<string>, s: Site)
    requires Placed(lines, s) && Sensible(lines, s) && Upright(s)
    ensures var n := Converted(lines, s);
            n.start <= n.end && (n.callEnd.Some? ==> 0 < n.callEnd.value && n.end <= n.callEnd.value)
  {
    AtMonotone(lines, s.start, s.end);
    if s.callEnd.Some? { AtMonotone(lines, s.end, s.callEnd.value); }
  }

  lemma ConvertedWithin(text: string, ends: Splitter, s: Site)
    requires Placed(Split(text, ends), s) && Sensible(Split(text, ends), s) && Upright(s)
    ensures Within(Converted(Split(text, ends), s), |text|)
  {
    ConvertedUpright(Split(text, ends), s);
    AtInText(text, ends, s.end);
    if s.callEnd.Some? { AtInText(text, ends, s.callEnd.value); }
  }

  lemma ConvertedCall(lines: seq<string>, a: Site, b: Site)
    requires Placed(lines, a) && Placed(lines, b) && a.callEnd.Some?
    requires Before(b.end, a.callEnd.value) || Before(a.callEnd.value, b.start)
    ensures var x, y := Converted(lines, a), Converted(lines, b);
            y.end <= x.callEnd.value || x.callEnd.value <= y.start
  {
    if Before(b.end, a.callEnd.value) { AtMonotone(lines, b.end, a.callEnd.value); }
    else { AtMonotone(lines, a.callEnd.value, b.start); }
  }

  lemma ConvertedLeaves(lines: seq<string>, a: Site, b: Site)
    requires Placed(lines, a) && Placed(lines, b) && LeafSites(a, b)
    ensures Leaves(Converted(lines, a), Converted(lines, b))
  {
    if Before(a.end, b.start) { AtMonotone(lines, a.end, b.start); } else { AtMonotone(lines, b.end, a.start); }
    if a.callEnd.Some? { ConvertedCall(lines, a, b); }
    if b.callEnd.Some? { ConvertedCall(lines, b, a); }
  }

  lemma ConvertedNested(text: string, ends: Splitter, sites: seq<Site>)
    requires AllPlaced(Split(text, ends), sites) && NestedSites(sites)
    requires forall i :: 0 <= i < |sites| ==> Sensible(Split(text, ends), sites[i])
    ensures Nested(AllConverted(Split(text, ends), sites), |text|)
  {
    var lines := Split(text, ends);
    var nodes := AllConverted(lines, sites);
    forall i | 0 <= i < |nodes| ensures Within(nodes[i], |text|) { ConvertedWithin(text, ends, sites[i]); }
    forall i, j | 0 <= i < j < |nodes| ensures Leaves(nodes[i], nodes[j]) {
      assert LeafSites(sites[i], sites[j]);
      ConvertedLeaves(lines, sites[i], sites[j]);
    }
  }

  /** However the lines were split: the edits of nodes nested as a syntax tree nests them do not overlap if
      and only if no call's end converts to the end of a replacement of two characters or more; and then
      they are rewritten as one simultaneous substitution. */
  lemma SitesSubstitute(text: string, ends: Splitter, sites: seq<Site>)
    requires AllPlaced(Split(text, ends), sites) && NestedSites(sites)
    requires forall i :: 0 <= i < |sites| ==> Sensible(Split(text, ends), sites[i])
    ensures var nodes := AllConverted(Split(text, ends), sites);
            && (Apart(AllEdits(nodes), |text|) <==> NoCuts(nodes))
            && (NoCuts(nodes) ==>
                  Rewritten(text, AllEdits(nodes)) == Substitute(text, Sorted(AllEdits(nodes), Le), 0))
  {
    ConvertedNested(text, ends, sites);
    NestedSubstitute(text, AllConverted(Split(text, ends), sites));
  }

  // ---- from the characters the parser saw to the characters rewritten --------------------------------

  ghost predicate InText(text: string, n: Node) {
    && n.start <= n.end && OnLine(text, n.start) && OnLine(text, n.end)
    && (n.callEnd.Some? ==> n.end < n.callEnd.value && OnLine(text, n.callEnd.value))
  }

  function SiteOf(text: string, n: Node): Site
    requires InText(text, n)
  {
    Site(ParserCoord(text, n.start), ParserCoord(text, n.end), n.replacement,
         if n.callEnd.None? then None else Some(ParserCoord(text, n.callEnd.value)))
  }

  lemma AtExactly(text: string, k: nat, last: nat)
    requires OnLine(text, k) && k <= last <= |text|
    ensures At(Split(text, SplitlinesBreak()), ParserCoord(text, k)) == Some(k) <==> Clean(text, k)
    ensures Clean(text, last) ==> Clean(text, k)
  {
    PosExactly(text, k);
  }

  lemma ConvertsBack(lines: seq<string>, s: Site, n: Node)
    requires s.replacement == n.replacement && (s.callEnd.Some? <==> n.callEnd.Some?)
    ensures Placed(lines, s) && Converted(lines, s) == n
       <==> && At(lines, s.start) == Some(n.start) && At(lines, s.end) == Some(n.end)
            && (s.callEnd.Some? ==> At(lines, s.callEnd.value) == Some(n.callEnd.value))
  {}

  /** `pos` converts a node back to exactly the characters the parser saw if and only if the text is clean
      up to the node's end. */
  lemma SiteExactly(text: string, n: Node)
    requires InText(text, n)
    ensures var lines, s := Split(text, SplitlinesBreak()), SiteOf(text, n);
            Clean(text, n.Last()) <==> Placed(lines, s) && Converted(lines, s) == n
  {
    AtExactly(text, n.start, n.Last());
    AtExactly(text, n.end, n.Last());
    AtExactly(text, n.Last(), n.Last());
    ConvertsBack(Split(text, SplitlinesBreak()), SiteOf(text, n), n);
  }

  function SitesOf(text: string, nodes: seq<Node>): (sites: seq<Site>)
    requires forall i :: 0 <= i < |nodes| ==> InText(text, nodes[i])
    ensures |sites| == |nodes| && forall i :: 0 <= i < |nodes| ==> sites[i] == SiteOf(text, nodes[i])
  {
    seq(|nodes|, i requires 0 <= i < |nodes| && InText(text, nodes[i]) => SiteOf(text, nodes[i]))
  }

  /** A call ends with its parenthesis, so never where a replaced part ends. */
  ghost predicate Parenthesized(nodes: seq<Node>) {
    forall i, j :: 0 <= i < |nodes| && 0 <= j < |nodes| ==> nodes[i].callEnd != Some(nodes[j].end)
  }

  /** From characters to characters: nodes nested as a syntax tree nests them, in a text clean up to their
      ends, are rewritten as one simultaneous substitution of exactly the characters the parser saw. */
  lemma NodesRewritten(text: string, nodes: seq<Node>)
    requires forall i :: 0 <= i < |nodes| ==> InText(text, nodes[i]) && Clean(text, nodes[i].Last())
    requires forall i, j :: 0 <= i < j < |nodes| ==> Leaves(nodes[i], nodes[j])
    requires Parenthesized(nodes)
    ensures var lines, sites := Split(text, SplitlinesBreak()), SitesOf(text, nodes);
            && AllPlaced(lines, sites) && AllConverted(lines, sites) == nodes
            && Apart(AllEdits(nodes), |text|)
            && Rewritten(text, AllEdits(nodes)) == Substitute(text, Sorted(AllEdits(nodes), Le), 0)
  {
    forall i | 0 <= i < |nodes| ensures Within(nodes[i], |text|) {}
    forall i | 0 <= i < |nodes|
      ensures Placed(Split(text, SplitlinesBreak()), SitesOf(text, nodes)[i])
      ensures Converted(Split(text, SplitlinesBreak()), SitesOf(text, nodes)[i]) == nodes[i]
    {
      SiteExactly(text, nodes[i]);
    }
    NestedSubstitute(text, nodes);
  }

  // ---- a call whose insertion cuts its own name ---------------------------------------------------------

  lemma {:induction false} AsciiChars(raw: string, col: nat)
    requires forall c :: c in raw ==> |Bytes(c)| == 1
    ensures CharsWithin(raw, col) == Some(MinInt(col, |raw|))
  {
    if col > 0 && raw != [] { AsciiChars(raw[1..], col - 1); }
  }

  lemma {:induction false} AsciiCoord(text: string, k: nat)
    requires k <= |text| && forall c :: c in text ==> |Bytes(c)| == 1 && c != '\n'
    ensures ParserCoord(text, k) == Coord(1, k)
  {
    if k > 0 {
      assert text[0] in text;
      AsciiCoord(text[1..], k - 1);
    }
  }

  lemma {:induction false} FirstLine(head: string, c: char, rest: string, ends: Splitter)
    requires ends(c) && forall d :: d in head ==> !ends(d)
    ensures Split(head + [c] + rest, ends) == [head + [c]] + Split(rest, ends)
  {
    var text := head + [c] + rest;
    if head == [] {
      assert text[1..] == rest && head + [c] == [c];
    } else {
      assert head[0] in head && text[0] == head[0] && text[1..] == head[1..] + [c] + rest;
      FirstLine(head[1..], c, rest, ends);
      assert [head[0]] + (head[1..] + [c]) == head + [c];
      assert ([head[1..] + [c]] + Split(rest, ends))[1..] == Split(rest, ends);
    }
  }

  lemma SplitsAfter(text: string, f: nat)
    requires f < |text| && Exotic(text[f]) && forall i :: 0 <= i < f ==> !Exotic(text[i]) && text[i] != '\n'
    ensures Split(text, SplitlinesBreak())[0] == text[..f + 1]
  {
    assert text == text[..f] + [text[f]] + text[f + 1..];
    FirstLine(text[..f], text[f], text[f + 1..], SplitlinesBreak());
  }

  lemma OnFirstLine(lines: seq<string>, col: nat)
    requires lines != [] && forall c :: c in lines[0] ==> |Bytes(c)| == 1
    ensures At(lines, Coord(1, col)) == Some(MinInt(col, |lines[0]|))
  {
    assert lines[..0] == [];
    AsciiChars(lines[0], col);
  }

  lemma FirstLineAt(text: string, f: nat, col: nat)
    requires f < |text| && Exotic(text[f]) && forall i :: 0 <= i < f ==> !Exotic(text[i])
    requires forall c :: c in text ==> |Bytes(c)| == 1 && c != '\n'
    ensures At(Split(text, SplitlinesBreak()), Coord(1, col)) == Some(MinInt(col, f + 1))
  {
    forall i | 0 <= i < f ensures text[i] != '\n' { assert text[i] in text; }
    SplitsAfter(text, f);
    forall c | c in text[..f + 1] ensures |Bytes(c)| == 1 { assert c in text; }
    OnFirstLine(Split(text, SplitlinesBreak()), col);
  }

  /** On a line of one-byte characters, a form feed or its like inside the name a call imports makes the end
      of the name and the end of the call convert to one place, just after it: the insertion cuts the name. */
  lemma InsertionCuts(text: string, n: Node, f: nat)
    requires InText(text, n) && n.callEnd.Some? && n.start < f < n.end
    requires Exotic(text[f]) && forall i :: 0 <= i < f ==> !Exotic(text[i])
    requires forall c :: c in text ==> |Bytes(c)| == 1 && c != '\n'
    ensures var lines, s := Split(text, SplitlinesBreak()), SiteOf(text, n);
            && Placed(lines, s) && Converted(lines, s) == Node(n.start, f + 1, n.replacement, Some(f + 1))
            && Cuts(Converted(lines, s), Converted(lines, s))
  {
    AsciiCoord(text, n.start);
    AsciiCoord(text, n.end);
    AsciiCoord(text, n.callEnd.value);
    FirstLineAt(text, f, n.start);
    FirstLineAt(text, f, n.end);
    FirstLineAt(text, f, n.callEnd.value);
  }
}
