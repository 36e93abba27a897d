/** The minority pattern: `create` writes a literal alternation of the
    minority code points, and `style` runs `Matcher.find` over the local-part,
    keeping the non-empty matches as marked spans. The regex engine itself is
    modelled only for the patterns `create` writes. */
module Patterns {
  import opened Utf16
  import opened Wrappers

  /** A piece of the pattern text: the alternation bar `|`, or
      `Pattern.quote` of one code point's string form. */
  datatype Piece = Bar | Quoted(cp: CodePoint)

  /** A compiled `java.util.regex.Pattern`, with the text it was compiled from. */
  datatype Pattern = Compiled(source: seq<Piece>)

  /** A marked range `[start, end)` of UTF-16 offsets. */
  datatype Span = Span(start: nat, end: nat)

  /** The shape `create` writes: quoted code points separated by single
      bars, or nothing at all. */
  predicate IsAlternation(text: seq<Piece>)
  {
    && (text == [] || |text| % 2 == 1)
    && forall i :: 0 <= i < |text| ==> (text[i].Bar? <==> i % 2 == 1)
  }

  /** The code points quoted in a pattern text. */
  function Literals(text: seq<Piece>): set<CodePoint>
  {
    if text == [] then {}
    else
      Literals(text[..|text| - 1])
      + match text[|text| - 1] { case Bar => {} case Quoted(cp) => {cp} }
  }

  /** Appending a piece adds the code point it quotes, if any. */
  lemma LiteralsSnoc(text: seq<Piece>, piece: Piece)
    ensures Literals(text + [piece]) == Literals(text) + match piece { case Bar => {} case Quoted(cp) => {cp} }
  {
    assert (text + [piece])[..|text|] == text;
  }

  /** Appending a bar and a quoted code point to an alternation, or just
      the quoted code point to the empty text, gives an alternation. */
  lemma AlternationGrows(text: seq<Piece>, cp: CodePoint, next: seq<Piece>)
    requires IsAlternation(text)
    requires next == (if |text| != 0 then text + [Bar] else text) + [Quoted(cp)]
    ensures IsAlternation(next)
  {
    forall i | 0 <= i < |next| ensures next[i].Bar? <==> i % 2 == 1 {
      if i < |text| {
        assert next[i] == text[i];
      }
    }
  }

  /** One round of `create`'s loop keeps the alternation shape, adds one
      literal and grows the text by one alternative. */
  lemma AppendAlternative(text: seq<Piece>, done: set<CodePoint>, cp: CodePoint, next: seq<Piece>)
    requires IsAlternation(text) && Literals(text) == done
    requires |text| == if done == {} then 0 else 2 * |done| - 1
    requires cp !in done
    requires next == (if |text| != 0 then text + [Bar] else text) + [Quoted(cp)]
    ensures IsAlternation(next)
    ensures Literals(next) == done + {cp}
    ensures |next| == 2 * |done + {cp}| - 1
  {
    AlternationGrows(text, cp, next);
    assert |done + {cp}| == |done| + 1;
    if text != [] {
      LiteralsSnoc(text, Bar);
      LiteralsSnoc(text + [Bar], Quoted(cp));
    } else {
      LiteralsSnoc([], Quoted(cp));
    }
  }

  /** Moving one element from the set still to quote to the set already
      quoted keeps the two disjoint and their union unchanged. */
  lemma MoveOne(done: set<CodePoint>, todo: set<CodePoint>, cp: CodePoint)
    requires done !! todo && cp in todo
    ensures (done + {cp}) + (todo - {cp}) == done + todo
    ensures (done + {cp}) !! (todo - {cp})
    ensures cp !in done
  {
  }

  /** `create`: one quoted alternative per code point of the set, in the
      set's iteration order, joined by bars. The empty set gives the empty
      text, which compiles to a pattern that matches the empty string. */
  method Create(codePoints: set<CodePoint>) returns (p: Pattern)
    ensures IsAlternation(p.source)
    ensures Literals(p.source) == codePoints
    ensures |p.source| == if codePoints == {} then 0 else 2 * |codePoints| - 1
  {
    var pattern: seq<Piece> := [];
    var todo := codePoints;
    ghost var done: set<CodePoint> := {};
    while todo != {}
      invariant done + todo == codePoints && done !! todo
      invariant IsAlternation(pattern) && Literals(pattern) == done
      invariant |pattern| == if done == {} then 0 else 2 * |done| - 1
      decreases |todo|
    {
      var codePoint :| codePoint in todo;
      ghost var before := pattern;
      if |pattern| != 0 {
        pattern := pattern + [Bar];
      }
      pattern := pattern + [Quoted(codePoint)];
      AppendAlternative(before, done, codePoint, pattern);
      MoveOne(done, todo, codePoint);
      todo := todo - {codePoint};
      done := done + {codePoint};
    }
    p := Compiled(pattern);
  }

  /** The spans of the code points of `s`, from offset `i` on, that are in
      `lits`: the occurrences a literal matcher should report. */
  function LiteralSpans(lits: set<CodePoint>, s: Text, i: nat): seq<Span>
    requires i <= |s|
    decreases |s| - i
  {
    if i == |s| then []
    else
      var cp := CodePointAt(s, i);
      var j := i + CharCount(cp);
      (if cp in lits then [Span(i, j)] else []) + LiteralSpans(lits, s, j)
  }

  /** One search of `Matcher.find` from offset `from` with a pattern `create`
      wrote. The empty pattern matches the empty string right there; an
      alternation of literals matches the first code point at or after
      `from` that it quotes. */
  function NextMatch(p: Pattern, s: Text, from: nat): (m: Option<Span>)
    requires IsAlternation(p.source)
    requires from <= |s|
    ensures m.Some? ==> from <= m.value.start <= m.value.end <= |s|
    ensures p.source == [] ==> m.Some? && m.value.start == m.value.end
    ensures p.source != [] && m.Some? ==>
      m.value.start < |s| &&
      var cp := CodePointAt(s, m.value.start);
      cp in Literals(p.source) && m.value.end == m.value.start + CharCount(cp)
    decreases |s| - from
  {
    if p.source == [] then Some(Span(from, from))
    else if from == |s| then None
    else
      var cp := CodePointAt(s, from);
      if cp in Literals(p.source) then Some(Span(from, from + CharCount(cp)))
      else NextMatch(p, s, from + CharCount(cp))
  }

  /** A non-empty pattern's search finds exactly the next literal span:
      none is skipped, and `None` means there are no more. */
  lemma {:induction false} NextMatchIsNextSpan(p: Pattern, s: Text, from: nat)
    requires IsAlternation(p.source) && p.source != []
    requires from <= |s|
    ensures var m := NextMatch(p, s, from);
      LiteralSpans(Literals(p.source), s, from)
        == if m.None? then [] else [m.value] + LiteralSpans(Literals(p.source), s, m.value.end)
    decreases |s| - from
  {
    if from < |s| {
      var cp := CodePointAt(s, from);
      if cp !in Literals(p.source) {
        NextMatchIsNextSpan(p, s, from + CharCount(cp));
      }
    }
  }

  /** With no literals nothing is marked. */
  lemma {:induction false} NothingToMark(s: Text, i: nat)
    requires i <= |s|
    ensures LiteralSpans({}, s, i) == []
    decreases |s| - i
  {
    if i < |s| {
      NothingToMark(s, i + CharCount(CodePointAt(s, i)));
    }
  }

  /** The marking loop of `style`: run `Matcher.find` until it fails,
      moving one unit past an empty match as `find` does, and mark every
      non-empty match. */
  method MarkMatches(p: Pattern, local: Text) returns (marks: seq<Span>)
    requires IsAlternation(p.source)
    ensures marks == LiteralSpans(Literals(p.source), local, 0)
  {
    marks := [];
    var next := 0;
    while next <= |local|
      invariant next <= |local| + 1
      invariant p.source == [] ==> marks == []
      invariant p.source != [] ==>
        next <= |local| && marks + LiteralSpans(Literals(p.source), local, next) == LiteralSpans(Literals(p.source), local, 0)
      decreases |local| + 1 - next
    {
      var m := NextMatch(p, local, next);
      if m.None? {
        break;
      }
      var start, end := m.value.start, m.value.end;
      if p.source != [] {
        NextMatchIsNextSpan(p, local, next);
      }
      if start < end {
        marks := marks + [Span(start, end)];
      }
      next := if start == end then end + 1 else end;
    }
    if p.source == [] {
      NothingToMark(local, 0);
    } else {
      NextMatchIsNextSpan(p, local, next);
    }
  }

  /** The code points of `cps` that are in `lits`, in order, duplicates kept. */
  function Keep(cps: seq<CodePoint>, lits: set<CodePoint>): seq<CodePoint>
  {
    if cps == [] then []
    else (if cps[0] in lits then [cps[0]] else []) + Keep(cps[1..], lits)
  }

  /** Every marked span is non-empty, covers exactly one code point of
      `lits` without splitting a surrogate pair, and the spans come in
      ascending, non-overlapping order. */
  lemma {:induction false} LiteralSpansWellFormed(lits: set<CodePoint>, s: Text, i: nat)
    requires i <= |s| && !SplitsPair(s, i)
    ensures forall k :: 0 <= k < |LiteralSpans(lits, s, i)| ==>
      var span := LiteralSpans(lits, s, i)[k];
      && i <= span.start < span.end <= |s|
      && CodePointAt(s, span.start) in lits
      && span.end == span.start + CharCount(CodePointAt(s, span.start))
      && !SplitsPair(s, span.start) && !SplitsPair(s, span.end)
    ensures forall k, l :: 0 <= k < l < |LiteralSpans(lits, s, i)| ==>
      LiteralSpans(lits, s, i)[k].end <= LiteralSpans(lits, s, i)[l].start
    decreases |s| - i
  {
    if i < |s| {
      var cp := CodePointAt(s, i);
      var j := i + CharCount(cp);
      StepKeepsBoundary(s, i);
      LiteralSpansWellFormed(lits, s, j);
      var head: seq<Span> := if cp in lits then [Span(i, j)] else [];
      var tail := LiteralSpans(lits, s, j);
      var spans := LiteralSpans(lits, s, i);
      assert spans == head + tail;
      forall k | 0 <= k < |spans|
        ensures && i <= spans[k].start < spans[k].end <= |s|
                && CodePointAt(s, spans[k].start) in lits
                && spans[k].end == spans[k].start + CharCount(CodePointAt(s, spans[k].start))
                && !SplitsPair(s, spans[k].start) && !SplitsPair(s, spans[k].end)
      {
        if k >= |head| {
          assert spans[k] == tail[k - |head|];
        }
      }
      forall k, l | 0 <= k < l < |spans| ensures spans[k].end <= spans[l].start {
        assert spans[l] == tail[l - |head|];
        if k >= |head| {
          assert spans[k] == tail[k - |head|];
        }
      }
    }
  }

  /** The marked code points, read in span order, are exactly the code
      points of the text that are in `lits`, in order and with repeats. */
  lemma {:induction false} LiteralSpansMarkEachLiteral(lits: set<CodePoint>, s: Text, i: nat)
    requires i <= |s|
    ensures |LiteralSpans(lits, s, i)| == |Keep(CodePointsFrom(s, i), lits)|
    ensures forall k :: 0 <= k < |LiteralSpans(lits, s, i)| ==>
      LiteralSpans(lits, s, i)[k].start < |s|
      && CodePointAt(s, LiteralSpans(lits, s, i)[k].start) == Keep(CodePointsFrom(s, i), lits)[k]
    decreases |s| - i
  {
    if i < |s| {
      var cp := CodePointAt(s, i);
      var j := i + CharCount(cp);
      LiteralSpansMarkEachLiteral(lits, s, j);
      assert CodePointsFrom(s, i)[1..] == CodePointsFrom(s, j);
    }
  }
}
