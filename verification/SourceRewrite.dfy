/** tools/repository_audit/apply_phase2_moves.py, `rewrite_python_imports`: edits are computed at
    offsets of the original text and spliced one at a time, last one first. */
module SourceRewrite {
  import opened Sorting

  /** Replace text[start..end] by `text`; an insertion has start == end. */
  datatype Edit = Edit(start: nat, end: nat, text: string) {
    function Growth(): int { |text| - (end - start) }
  }

  // ---- the order of Python tuples (start, end, replacement) --------------------------------

  predicate TextLe(a: string, b: string) {
    a == [] || (b != [] && (a[0] < b[0] || (a[0] == b[0] && TextLe(a[1..], b[1..]))))
  }

  predicate Le(a: Edit, b: Edit) {
    a.start < b.start || (a.start == b.start && (a.end < b.end || (a.end == b.end && TextLe(a.text, b.text))))
  }

  lemma {:induction false} TextLeOrder(a: string, b: string, c: string)
    ensures TextLe(a, b) || TextLe(b, a)
    ensures TextLe(a, b) && TextLe(b, a) ==> a == b
    ensures TextLe(a, b) && TextLe(b, c) ==> TextLe(a, c)
  {
    if a != [] && b != [] {
      TextLeOrder(a[1..], b[1..], if c == [] then [] else c[1..]);
      assert a == [a[0]] + a[1..] && b == [b[0]] + b[1..];
    }
  }

  lemma LeOrder(a: Edit, b: Edit, c: Edit)
    ensures Le(a, b) || Le(b, a)
    ensures Le(a, b) && Le(b, a) ==> a == b
    ensures Le(a, b) && Le(b, c) ==> Le(a, c)
  {
    TextLeOrder(a.text, b.text, c.text);
  }

  lemma LeTotal()
    ensures TotalOrder(Le)
  {
    forall a, b ensures Le(a, b) || Le(b, a) { LeOrder(a, b, a); }
    forall a, b | Le(a, b) && Le(b, a) ensures a == b { LeOrder(a, b, a); }
    forall a, b, c | Le(a, b) && Le(b, c) ensures Le(a, c) { LeOrder(a, b, c); }
  }

  // ---- splicing --------------------------------------------------------------------------------

  /** The edits lie in [from, n], one after the other; touching is allowed. */
  ghost predicate Chained(s: seq<Edit>, from: nat, n: nat) {
    if s == [] then from <= n
    else from <= s[0].start <= s[0].end && Chained(s[1..], s[0].end, n)
  }

  predicate Disjoint(a: Edit, b: Edit) { a.end <= b.start || b.end <= a.start }

  /** No two edits overlap, in whatever order they were collected. */
  ghost predicate Apart(edits: seq<Edit>, n: nat) {
    && (forall e :: e in edits ==> e.start <= e.end <= n)
    && (forall i, j :: 0 <= i < j < |edits| ==> Disjoint(edits[i], edits[j]))
  }

  lemma {:induction false} InsertChained(e: Edit, s: seq<Edit>, from: nat, n: nat)
    requires Chained(s, from, n) && from <= e.start <= e.end <= n
    requires forall x :: x in s ==> Disjoint(e, x)
    ensures Chained(Insert(e, s, Le), from, n)
  {
    if s == [] {
      assert [e][1..] == [];
    } else {
      assert Disjoint(e, s[0]);
      if Le(e, s[0]) {
        assert ([e] + s)[1..] == s;
      } else {
        LeOrder(e, s[0], e);
        InsertChained(e, s[1..], s[0].end, n);
      }
    }
  }

  lemma {:induction false} SortedChained(edits: seq<Edit>, n: nat)
    requires Apart(edits, n)
    ensures Chained(Sorted(edits, Le), 0, n)
  {
    if edits != [] {
      SortedChained(edits[1..], n);
      var rest := Sorted(edits[1..], Le);
      forall x | x in rest ensures Disjoint(edits[0], x) {
        assert x in multiset(rest);
        assert x in edits[1..];
      }
      InsertChained(edits[0], rest, 0, n);
    }
  }

  /** One splice, with Python's forgiving slices. */
  function Splice(text: string, e: Edit): string {
    text[..Clip(e.start, text)] + e.text + text[Clip(e.end, text)..]
  }

  function Clip(k: nat, text: string): (r: nat)
    ensures r <= |text|
  {
    if k <= |text| then k else |text|
  }

  /** Splicing an ascending list from its last edit to its first, as the loop over
      `sorted(edits, reverse=True)` does. */
  function SpliceBackwards(text: string, asc: seq<Edit>): string
    decreases |asc|
  {
    if asc == [] then text
    else SpliceBackwards(Splice(text, asc[|asc| - 1]), asc[..|asc| - 1])
  }

  function Between(text: string, i: nat, j: nat): string {
    if i <= j <= |text| then text[i..j] else []
  }

  /** Simultaneous substitution, copying the original text from offset `from` on: keep what
      lies before the next edit, write its replacement, continue after it. */
  function Substitute(text: string, asc: seq<Edit>, from: nat): string {
    if asc == [] then Between(text, from, |text|)
    else Between(text, from, asc[0].start) + asc[0].text + Substitute(text, asc[1..], asc[0].end)
  }

  lemma {:induction false} SubstituteSnoc(text: string, asc: seq<Edit>, e: Edit, from: nat)
    requires Chained(asc + [e], from, |text|)
    ensures from <= e.start <= e.end <= |text| && Chained(asc, from, |Splice(text, e)|)
    ensures Substitute(text, asc + [e], from) == Substitute(Splice(text, e), asc, from)
  {
    if asc == [] {
      assert asc + [e] == [e];
      SubstituteOne(text, e, from);
    } else {
      assert (asc + [e])[1..] == asc[1..] + [e];
      SubstituteSnoc(text, asc[1..], e, asc[0].end);
      BeforeSplice(text, e, from, asc[0].start);
    }
  }

  lemma SubstituteOne(text: string, e: Edit, from: nat)
    requires from <= e.start <= e.end <= |text|
    ensures from <= |Splice(text, e)| && Substitute(text, [e], from) == Substitute(Splice(text, e), [], from)
  {
    var after := Splice(text, e);
    assert [e][1..] == [];
    assert Substitute(text, [e], from) == text[from..e.start] + e.text + text[e.end..];
    assert after[from..] == text[from..e.start] + e.text + text[e.end..];
  }

  /** A splice leaves the text before it alone. */
  lemma BeforeSplice(text: string, e: Edit, from: nat, to: nat)
    requires from <= to <= e.start <= e.end <= |text|
    ensures Between(Splice(text, e), from, to) == Between(text, from, to)
  {
    var after := Splice(text, e);
    forall i | from <= i < to ensures after[i] == text[i] {}
    assert after[from..to] == text[from..to];
  }

  lemma {:induction false} BackwardsIsSubstitution(text: string, asc: seq<Edit>)
    requires Chained(asc, 0, |text|)
    ensures SpliceBackwards(text, asc) == Substitute(text, asc, 0)
    decreases |asc|
  {
    if asc != [] {
      var e, rest := asc[|asc| - 1], asc[..|asc| - 1];
      assert asc == rest + [e];
      SubstituteSnoc(text, rest, e, 0);
      BackwardsIsSubstitution(Splice(text, e), rest);
    }
  }

  /** The whole rewrite of one file's text. */
  function Rewritten(text: string, edits: seq<Edit>): string {
    SpliceBackwards(text, Sorted(edits, Le))
  }

  /** For any text and any non-overlapping edits, in any order, splicing them last-first at their
      original offsets is the simultaneous substitution. */
  lemma RewriteIsSubstitution(text: string, edits: seq<Edit>)
    requires Apart(edits, |text|)
    ensures Chained(Sorted(edits, Le), 0, |text|)
    ensures Rewritten(text, edits) == Substitute(text, Sorted(edits, Le), 0)
  {
    SortedChained(edits, |text|);
    BackwardsIsSubstitution(text, Sorted(edits, Le));
  }

  /** The order in which the tree walk collects edits is irrelevant. */
  lemma RewriteIgnoresOrder(text: string, edits: seq<Edit>, shuffled: seq<Edit>)
    requires multiset(edits) == multiset(shuffled)
    ensures Rewritten(text, edits) == Rewritten(text, shuffled)
  {
    LeTotal();
    SortedIgnoresOrder(edits, shuffled, Le);
  }

  // ---- what the output is, position by position ---------------------------------------------------

  /** How far the edits ending at or before offset k push it. */
  function Shift(asc: seq<Edit>, k: int): int {
    if asc == [] then 0 else (if asc[0].end <= k then asc[0].Growth() else 0) + Shift(asc[1..], k)
  }

  ghost predicate Untouched(asc: seq<Edit>, k: nat) {
    forall e :: e in asc ==> !(e.start <= k < e.end)
  }

  lemma {:induction false} NoShiftBefore(asc: seq<Edit>, from: nat, n: nat, k: nat)
    requires Chained(asc, from, n) && k < from
    ensures Shift(asc, k) == 0
  {
    if asc != [] { NoShiftBefore(asc[1..], asc[0].end, n, k); }
  }

  lemma {:induction false} ChainedInside(asc: seq<Edit>, from: nat, n: nat)
    requires Chained(asc, from, n)
    ensures from <= n && forall e :: e in asc ==> from <= e.start <= e.end <= n
  {
    if asc != [] { ChainedInside(asc[1..], asc[0].end, n); }
  }

  /** The character at offset `at` of an output is c. */
  ghost predicate Reads(out: string, at: int, c: char) { 0 <= at < |out| && out[at] == c }

  ghost predicate Stands(out: string, at: int, piece: string) {
    0 <= at && at + |piece| <= |out| && out[at..at + |piece|] == piece
  }

  /** Walking the edits in order with the growth so far, each replacement stands at its own start
      pushed by that growth. */
  ghost predicate AllStand(out: string, asc: seq<Edit>, growth: int) {
    asc == [] || (Stands(out, asc[0].start + growth, asc[0].text) && AllStand(out, asc[1..], growth + asc[0].Growth()))
  }

  /** Substitution behind a text already written. */
  function SubstituteOnto(written: string, text: string, asc: seq<Edit>, from: nat): string
    decreases |asc|
  {
    if asc == [] then written + Between(text, from, |text|)
    else SubstituteOnto(written + Between(text, from, asc[0].start) + asc[0].text, text, asc[1..], asc[0].end)
  }

  lemma {:induction false} OntoIsBehind(written: string, text: string, asc: seq<Edit>, from: nat)
    ensures SubstituteOnto(written, text, asc, from) == written + Substitute(text, asc, from)
    decreases |asc|
  {
    if asc != [] {
      var kept, piece, rest := Between(text, from, asc[0].start), asc[0].text, Substitute(text, asc[1..], asc[0].end);
      OntoIsBehind(written + kept + piece, text, asc[1..], asc[0].end);
      assert (written + kept + piece) + rest == written + (kept + piece + rest);
    }
  }

  lemma {:induction false} WrittenStays(written: string, text: string, asc: seq<Edit>, from: nat)
    ensures written <= SubstituteOnto(written, text, asc, from)
    decreases |asc|
  {
    if asc != [] {
      WrittenStays(written + Between(text, from, asc[0].start) + asc[0].text, text, asc[1..], asc[0].end);
    }
  }

  lemma {:induction false} ReplacementsStand(written: string, text: string, asc: seq<Edit>, from: nat)
    requires Chained(asc, from, |text|)
    ensures AllStand(SubstituteOnto(written, text, asc, from), asc, |written| - from)
    decreases |asc|
  {
    if asc != [] {
      var e := asc[0];
      var front := written + Between(text, from, e.start);
      assert e.end <= |text| by { ChainedInside(asc[1..], e.end, |text|); }
      ReplacementsStand(front + e.text, text, asc[1..], e.end);
      WrittenStays(front + e.text, text, asc[1..], e.end);
      WrittenStands(front, e.text, SubstituteOnto(written, text, asc, from));
    }
  }

  lemma WrittenStands(front: string, piece: string, out: string)
    requires front + piece <= out
    ensures Stands(out, |front|, piece)
  {
    assert (front + piece)[|front|..] == piece;
  }

  lemma {:induction false} SubstituteLength(text: string, asc: seq<Edit>, from: nat)
    requires Chained(asc, from, |text|)
    ensures |Substitute(text, asc, from)| == |text| - from + Shift(asc, |text|)
  {
    ChainedInside(asc, from, |text|);
    if asc != [] { SubstituteLength(text, asc[1..], asc[0].end); }
  }

  lemma UntouchedParts(asc: seq<Edit>, k: nat)
    requires asc != [] && Untouched(asc, k)
    ensures !(asc[0].start <= k < asc[0].end) && Untouched(asc[1..], k)
  {
    assert asc[0] in asc;
  }

  lemma {:induction false} CharacterSurvives(written: string, text: string, asc: seq<Edit>, from: nat, k: nat)
    requires Chained(asc, from, |text|) && from <= k < |text| && Untouched(asc, k)
    ensures Reads(SubstituteOnto(written, text, asc, from), k + (|written| - from) + Shift(asc, k), text[k])
    decreases |asc|
  {
    if asc != [] {
      var e := asc[0];
      UntouchedParts(asc, k);
      ChainedInside(asc[1..], e.end, |text|);
      if e.end <= k {
        CharacterSurvives(written + Between(text, from, e.start) + e.text, text, asc[1..], e.end, k);
      } else {
        NoShiftBefore(asc[1..], e.end, |text|, k);
        BeforeFirst(written, text, asc, from, k);
      }
    }
  }

  lemma BeforeFirst(written: string, text: string, asc: seq<Edit>, from: nat, k: nat)
    requires asc != [] && from <= k < asc[0].start <= |text|
    ensures Reads(SubstituteOnto(written, text, asc, from), k + (|written| - from), text[k])
  {
    var front := written + Between(text, from, asc[0].start);
    WrittenStays(front + asc[0].text, text, asc[1..], asc[0].end);
    assert (front + asc[0].text)[|written| + (k - from)] == text[k];
  }

  /** Character k of the text, unless an edit touches it, stands in the output where the growth before
      it pushed it. */
  ghost predicate Survives(text: string, asc: seq<Edit>, out: string, k: nat)
    requires k < |text|
  {
    Untouched(asc, k) ==> Reads(out, k + Shift(asc, k), text[k])
  }

  lemma SurvivesOnto(text: string, asc: seq<Edit>, k: nat)
    requires Chained(asc, 0, |text|) && k < |text|
    ensures Survives(text, asc, SubstituteOnto([], text, asc, 0), k)
  {
    if Untouched(asc, k) { CharacterSurvives([], text, asc, 0, k); }
  }

  lemma SubstitutePlain(text: string, asc: seq<Edit>)
    ensures SubstituteOnto([], text, asc, 0) == Substitute(text, asc, 0)
  {
    OntoIsBehind([], text, asc, 0);
    assert [] + Substitute(text, asc, 0) == Substitute(text, asc, 0);
  }

  /** The output of a rewrite, as written behind nothing. */
  lemma RewriteOnto(text: string, edits: seq<Edit>)
    requires Apart(edits, |text|)
    ensures Chained(Sorted(edits, Le), 0, |text|)
    ensures Rewritten(text, edits) == Substitute(text, Sorted(edits, Le), 0)
                                   == SubstituteOnto([], text, Sorted(edits, Le), 0)
  {
    RewriteIsSubstitution(text, edits);
    SubstitutePlain(text, Sorted(edits, Le));
  }

  lemma RewriteStands(text: string, edits: seq<Edit>)
    requires Apart(edits, |text|)
    ensures AllStand(Rewritten(text, edits), Sorted(edits, Le), 0)
  {
    RewriteOnto(text, edits);
    ReplacementsStand([], text, Sorted(edits, Le), 0);
  }

  lemma RewriteLength(text: string, edits: seq<Edit>)
    requires Apart(edits, |text|)
    ensures |Rewritten(text, edits)| == |text| + Shift(Sorted(edits, Le), |text|)
  {
    RewriteOnto(text, edits);
    SubstituteLength(text, Sorted(edits, Le), 0);
  }

  lemma RewriteSurvives(text: string, edits: seq<Edit>, k: nat)
    requires Apart(edits, |text|) && k < |text|
    ensures Survives(text, Sorted(edits, Le), Rewritten(text, edits), k)
  {
    RewriteOnto(text, edits);
    SurvivesOnto(text, Sorted(edits, Le), k);
  }

  /** Position by position: every character outside all edits survives, moved by exactly the growth
      of the edits before it; every replacement stands at its own shifted offset; and the length is
      accounted for. Together these fix every character of the output. */
  lemma RewriteByPosition(text: string, edits: seq<Edit>)
    requires Apart(edits, |text|)
    ensures var out, asc := Rewritten(text, edits), Sorted(edits, Le);
            && |out| == |text| + Shift(asc, |text|)
            && AllStand(out, asc, 0)
            && (forall k :: 0 <= k < |text| ==> Survives(text, asc, out, k))
  {
    RewriteLength(text, edits);
    RewriteStands(text, edits);
    forall k | 0 <= k < |text| ensures Survives(text, Sorted(edits, Le), Rewritten(text, edits), k) {
      RewriteSurvives(text, edits, k);
    }
  }

  /** Overlapping edits are not a simultaneous substitution: here two edits of "abcd" leave a
      fragment of the replacement of the other behind. */
  lemma OverlapCorrupts()
    ensures Rewritten("abcd", [Edit(0, 3, "X"), Edit(1, 2, "YYYY")]) == "XYYcd"
  {
    var e, f := Edit(0, 3, "X"), Edit(1, 2, "YYYY");
    assert Sorted([f], Le) == [f] by { assert Sorted([], Le) == []; assert [f][1..] == []; }
    assert [e, f][1..] == [f];
    assert Sorted([e, f], Le) == [e, f];
    assert Splice("abcd", f) == "aYYYYcd";
    assert Splice("aYYYYcd", e) == "XYYcd";
    assert [e, f][..1] == [e] && [e][..0] == [];
    assert SpliceBackwards("aYYYYcd", [e]) == "XYYcd";
  }

  /** The splice loop. */
  method RewriteText(text: string, edits: seq<Edit>) returns (rewritten: string)
    ensures rewritten == Rewritten(text, edits)
    ensures Apart(edits, |text|) ==>
              Chained(Sorted(edits, Le), 0, |text|) && rewritten == Substitute(text, Sorted(edits, Le), 0)
  {
    var asc := Sorted(edits, Le);
    rewritten := text;
    assert asc[..|asc|] == asc;
    for k := |asc| downto 0
      invariant SpliceBackwards(rewritten, asc[..k]) == SpliceBackwards(text, asc)
    {
      assert asc[..k + 1][..k] == asc[..k];
      rewritten := rewritten[..Clip(asc[k].start, rewritten)] + asc[k].text + rewritten[Clip(asc[k].end, rewritten)..];
    }
    if Apart(edits, |text|) { RewriteIsSubstitution(text, edits); }
  }
}
