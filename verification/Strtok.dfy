/**
 * The destructive tokenizer (standalone/strtok.c).
 */
module Strtok {
  import opened Bits
  import opened Memory

  /** The addresses from start to end. */
  datatype Span = Span(start: nat, end: nat)

  /** The first address from a on, up to end, that holds no delimiter. */
  function SkipDelims(m: seq<Byte>, delim: seq<Byte>, a: nat, end: nat): (r: nat)
    requires a <= end <= |m|
    ensures a <= r <= end
    ensures forall k :: a <= k < r ==> m[k] in delim
    ensures r < end ==> m[r] !in delim
    decreases end - a
  {
    if a < end && m[a] in delim then SkipDelims(m, delim, a + 1, end) else a
  }

  /** The first address from a on, up to end, that holds a delimiter. */
  function RunEnd(m: seq<Byte>, delim: seq<Byte>, a: nat, end: nat): (r: nat)
    requires a <= end <= |m|
    ensures a <= r <= end
    ensures forall k :: a <= k < r ==> m[k] !in delim
    ensures r < end ==> m[r] in delim
    decreases end - a
  {
    if a < end && m[a] !in delim then RunEnd(m, delim, a + 1, end) else a
  }

  /** The tokens between a and end. */
  function Spans(m: seq<Byte>, delim: seq<Byte>, a: nat, end: nat): seq<Span>
    requires a <= end <= |m|
    decreases end - a
  {
    var i := SkipDelims(m, delim, a, end);
    if i == end then []
    else
      var j := RunEnd(m, delim, i, end);
      [Span(i, j)] + Spans(m, delim, j, end)
  }

  /** A nonempty run without delimiters that cannot be extended in either direction. */
  ghost predicate MaximalRun(m: seq<Byte>, delim: seq<Byte>, lo: nat, hi: nat, s: Span)
    requires hi <= |m|
  {
    && lo <= s.start < s.end <= hi
    && (forall k :: s.start <= k < s.end ==> m[k] !in delim)
    && (s.start == lo || m[s.start - 1] in delim)
    && (s.end == hi || m[s.end] in delim)
  }

  /** The first run behind a, when there is one, is maximal; no other maximal run starts before its end. */
  lemma FirstRun(m: seq<Byte>, delim: seq<Byte>, lo: nat, a: nat, end: nat, s: Span)
    requires lo <= a <= end <= |m| && a <= s.start
    requires a == lo || (a < end ==> m[a] in delim)
    ensures var i := SkipDelims(m, delim, a, end);
            if i == end then !MaximalRun(m, delim, lo, end, s)
            else
              var j := RunEnd(m, delim, i, end);
              s.start < j ==> (MaximalRun(m, delim, lo, end, s) <==> s == Span(i, j))
  {
    var i := SkipDelims(m, delim, a, end);
    assert a <= s.start < i ==> m[s.start] in delim;
    if i < end {
      var j := RunEnd(m, delim, i, end);
      assert i < s.start < j ==> m[s.start - 1] !in delim;
      assert i <= s.end < j ==> m[s.end] !in delim;
    }
  }

  /** In order and apart, from a on; behind a when that is a delimiter. */
  ghost predicate Ascending(spans: seq<Span>, a: nat, end: nat)
  {
    && (forall k :: 0 <= k < |spans| ==> a <= spans[k].start < spans[k].end <= end)
    && (forall k, l :: 0 <= k < l < |spans| ==> spans[k].end < spans[l].start)
  }

  lemma NoSpans(m: seq<Byte>, delim: seq<Byte>, end: nat)
    requires end <= |m|
    ensures Spans(m, delim, end, end) == []
  {
  }

  lemma SkipDelimsIs(m: seq<Byte>, delim: seq<Byte>, a: nat, end: nat, i: nat)
    requires a <= i <= end <= |m| && (i < end ==> m[i] !in delim)
    requires forall k :: a <= k < i ==> m[k] in delim
    ensures SkipDelims(m, delim, a, end) == i
  {
  }

  lemma RunEndIs(m: seq<Byte>, delim: seq<Byte>, a: nat, end: nat, j: nat)
    requires a <= j <= end <= |m| && (j < end ==> m[j] in delim)
    requires forall k :: a <= k < j ==> m[k] !in delim
    ensures RunEnd(m, delim, a, end) == j
  {
  }

  lemma AscendingCons(i: nat, j: nat, rest: seq<Span>, a: nat, end: nat)
    requires a <= i < j <= end
    requires if j == end then rest == [] else Ascending(rest, j + 1, end)
    ensures Ascending([Span(i, j)] + rest, a, end)
  {
  }

  lemma {:induction false} SpansAscend(m: seq<Byte>, delim: seq<Byte>, a: nat, end: nat)
    requires a <= end <= |m|
    ensures Ascending(Spans(m, delim, a, end), a, end)
    ensures a < end && m[a] in delim ==> Ascending(Spans(m, delim, a, end), a + 1, end)
    decreases end - a
  {
    var i := SkipDelims(m, delim, a, end);
    if i < end {
      var j := RunEnd(m, delim, i, end);
      var rest := Spans(m, delim, j, end);
      if j == end {
        NoSpans(m, delim, end);
      }
      assert Spans(m, delim, a, end) == [Span(i, j)] + rest;
      hide SkipDelims, RunEnd, Spans, Ascending;
      SpansAscend(m, delim, j, end);
      AscendingCons(i, j, rest, a, end);
      if m[a] in delim {
        AscendingCons(i, j, rest, a + 1, end);
      }
    }
  }

  /** The tokens are exactly the maximal runs, in order and apart. */
  lemma {:induction false} SpansAreMaximalRuns(m: seq<Byte>, delim: seq<Byte>, lo: nat, a: nat, end: nat)
    requires lo <= a <= end <= |m|
    requires a == lo || (a < end ==> m[a] in delim)
    ensures forall s: Span :: a <= s.start ==> (MaximalRun(m, delim, lo, end, s) <==> s in Spans(m, delim, a, end))
    decreases end - a
  {
    hide MaximalRun, SkipDelims, RunEnd;
    var i := SkipDelims(m, delim, a, end);
    if i < end {
      var j := RunEnd(m, delim, i, end);
      SpansAreMaximalRuns(m, delim, lo, j, end);
      SpansAscend(m, delim, j, end);
    }
    forall s: Span | a <= s.start
      ensures MaximalRun(m, delim, lo, end, s) <==> s in Spans(m, delim, a, end)
    {
      FirstRun(m, delim, lo, a, end, s);
    }
  }

  ghost predicate Agree(m: seq<Byte>, m': seq<Byte>, a: nat, end: nat)
  {
    end <= |m| && end <= |m'| && forall k :: a <= k < end ==> m[k] == m'[k]
  }

  lemma {:induction false} SkipKept(m: seq<Byte>, m': seq<Byte>, delim: seq<Byte>, a: nat, end: nat)
    requires a <= end && Agree(m, m', a, end)
    ensures SkipDelims(m', delim, a, end) == SkipDelims(m, delim, a, end)
    decreases end - a
  {
    if a < end && m[a] in delim {
      SkipKept(m, m', delim, a + 1, end);
    }
  }

  lemma {:induction false} RunKept(m: seq<Byte>, m': seq<Byte>, delim: seq<Byte>, a: nat, end: nat)
    requires a <= end && Agree(m, m', a, end)
    ensures RunEnd(m', delim, a, end) == RunEnd(m, delim, a, end)
    decreases end - a
  {
    if a < end && m[a] !in delim {
      RunKept(m, m', delim, a + 1, end);
    }
  }

  /** The tokens between a and end depend on the bytes there only. */
  lemma {:induction false} SpansKept(m: seq<Byte>, m': seq<Byte>, delim: seq<Byte>, a: nat, end: nat)
    requires a <= end && Agree(m, m', a, end)
    ensures Spans(m', delim, a, end) == Spans(m, delim, a, end)
    decreases end - a
  {
    var i := SkipDelims(m, delim, a, end);
    SkipKept(m, m', delim, a, end);
    if i < end {
      RunKept(m, m', delim, i, end);
      SpansKept(m, m', delim, RunEnd(m, delim, i, end), end);
    }
  }

  /** A delimiter in front changes nothing. */
  lemma SkipOne(m: seq<Byte>, delim: seq<Byte>, a: nat, end: nat)
    requires a < end <= |m| && m[a] in delim
    ensures Spans(m, delim, a, end) == Spans(m, delim, a + 1, end)
  {
  }

  /** The tokens still to come, for the saved pointer. */
  ghost function Remaining(m: seq<Byte>, delim: seq<Byte>, last: Option<nat>): seq<Span>
    requires last.Some? ==> Terminated(m, last.value)
  {
    if last.None? then [] else Spans(m, delim, last.value, last.value + StrLen(m, last.value))
  }

  /** The scan over the delimiters. */
  method IsDelim(c: Byte, delim: seq<Byte>) returns (found: bool)
    ensures found <==> c in delim
  {
    var k := 0;
    found := false;
    while k < |delim|
      invariant 0 <= k <= |delim| && c !in delim[..k]
    {
      if c == delim[k] {
        found := true;
        return;
      }
      k := k + 1;
    }
    assert delim[..k] == delim;
  }

  /** The NUL of a string is the NUL of every later part of it. */
  lemma LaterPart(m: seq<Byte>, a: nat, b: nat)
    requires Terminated(m, a) && a <= b <= a + StrLen(m, a)
    ensures Terminated(m, b) && b + StrLen(m, b) == a + StrLen(m, a)
  {
    assert m[a + StrLen(m, a)] == 0;
  }

  /** Skip leading delimiters. The result is the first other character, which may be the NUL. */
  method SkipLeading(mem: array<Byte>, delim: seq<Byte>, start: nat) returns (i: nat)
    requires Terminated(mem[..], start) && 0 !in delim
    ensures start <= i <= start + StrLen(mem[..], start)
    ensures i == SkipDelims(mem[..], delim, start, start + StrLen(mem[..], start))
  {
    hide StrLen, Terminated;
    ghost var end := start + StrLen(mem[..], start);
    i := start;
    while true
      invariant start <= i <= end
      invariant SkipDelims(mem[..], delim, start, end) == SkipDelims(mem[..], delim, i, end)
      decreases end - i
    {
      var found := IsDelim(mem[i], delim);
      if !found {
        return;
      }
      i := i + 1;
    }
  }

  /** Scan to the end of the token: a delimiter or the NUL. */
  method ScanToken(mem: array<Byte>, delim: seq<Byte>, start: nat, ghost end: nat) returns (j: nat)
    requires start < end < mem.Length && mem[end] == 0 && 0 !in delim
    requires forall k :: start <= k < end ==> mem[k] != 0
    ensures start <= j <= end && j == RunEnd(mem[..], delim, start, end)
  {
    j := start;
    while true
      invariant start <= j <= end
      invariant RunEnd(mem[..], delim, start, end) == RunEnd(mem[..], delim, j, end)
      decreases end - j
    {
      var found := IsDelim(mem[j], delim);
      if found || mem[j] == 0 {
        return;
      }
      j := j + 1;
    }
  }

  lemma NothingRemains(m: seq<Byte>, delim: seq<Byte>)
    ensures Remaining(m, delim, None) == []
  {
  }

  /** The first of the tokens goes from i to j; the rest is behind j, or there is none and j is the NUL. */
  ghost predicate Taken(m: seq<Byte>, delim: seq<Byte>, todo: seq<Span>, i: nat, j: nat)
  {
    && i < j < |m|
    && todo != [] && todo[0] == Span(i, j)
    && (if m[j] == 0 then todo[1..] == []
        else Terminated(m[j := 0], j + 1) && Remaining(m[j := 0], delim, Some(j + 1)) == todo[1..])
  }

  /** A NUL for the delimiter behind a token leaves the tokens behind it. */
  lemma TokenCut(m: seq<Byte>, delim: seq<Byte>, a: nat, j: nat)
    requires Terminated(m, a) && a <= j < a + StrLen(m, a) && m[j] in delim
    ensures Terminated(m[j := 0], j + 1)
    ensures Remaining(m[j := 0], delim, Some(j + 1)) == Spans(m, delim, j, a + StrLen(m, a))
  {
    hide StrLen, Terminated, Spans;
    var end := a + StrLen(m, a);
    SkipOne(m, delim, j, end);
    LaterPart(m, a, j + 1);
    StringKept(m, m[j := 0], j + 1);
    SpansKept(m, m[j := 0], delim, j + 1, end);
  }

  lemma SpansStep(m: seq<Byte>, delim: seq<Byte>, a: nat, end: nat)
    requires a <= end < |m|
    ensures var i := SkipDelims(m, delim, a, end);
            if i == end then Spans(m, delim, a, end) == []
            else
              var j := RunEnd(m, delim, i, end);
              Spans(m, delim, a, end) == [Span(i, j)] + Spans(m, delim, j, end)
    ensures Spans(m, delim, end, end) == []
  {
  }

  lemma EndOfString(m: seq<Byte>, delim: seq<Byte>, a: nat)
    requires Terminated(m, a)
    ensures a + StrLen(m, a) < |m| && m[a + StrLen(m, a)] == 0
    ensures Remaining(m, delim, Some(a)) == Spans(m, delim, a, a + StrLen(m, a))
  {
    hide Spans;
  }

  lemma InsideString(m: seq<Byte>, a: nat, k: nat)
    requires Terminated(m, a) && a <= k < a + StrLen(m, a)
    ensures k < |m| && m[k] != 0
  {
  }

  /** A run that ends at a delimiter is taken off and cut there. */
  lemma TakenInside(m: seq<Byte>, delim: seq<Byte>, a: nat, todo: seq<Span>, i: nat, j: nat)
    requires Terminated(m, a) && i < j && a <= j < a + StrLen(m, a) && m[j] in delim && m[j] != 0
    requires todo == [Span(i, j)] + Spans(m, delim, j, a + StrLen(m, a))
    ensures Taken(m, delim, todo, i, j)
  {
    hide StrLen, Terminated, Spans, Remaining;
    assert todo[1..] == Spans(m, delim, j, a + StrLen(m, a));
    TokenCut(m, delim, a, j);
  }

  /** A run that ends with the string is the last one. */
  lemma TakenLast(m: seq<Byte>, delim: seq<Byte>, todo: seq<Span>, i: nat, j: nat)
    requires i < j < |m| && m[j] == 0
    requires todo == [Span(i, j)] + Spans(m, delim, j, j)
    ensures Taken(m, delim, todo, i, j)
  {
    hide StrLen, Terminated, Spans, Remaining;
    SpansStep(m, delim, j, j);
  }

  /** What is there to take from the string at a, and what is left then. */
  lemma FirstToken(m: seq<Byte>, delim: seq<Byte>, a: nat)
    requires Terminated(m, a) && 0 !in delim
    ensures var end := a + StrLen(m, a);
            var i := SkipDelims(m, delim, a, end);
            if i == end then Remaining(m, delim, Some(a)) == [] && m[i] == 0
            else Taken(m, delim, Remaining(m, delim, Some(a)), i, RunEnd(m, delim, i, end)) && m[i] != 0
  {
    hide StrLen, Terminated, Spans, SkipDelims, RunEnd, Remaining, Taken;
    var end := a + StrLen(m, a);
    var i := SkipDelims(m, delim, a, end);
    EndOfString(m, delim, a);
    SpansStep(m, delim, a, end);
    if i < end {
      var j, todo := RunEnd(m, delim, i, end), Remaining(m, delim, Some(a));
      InsideString(m, a, i);
      if j < end {
        InsideString(m, a, j);
        TakenInside(m, delim, a, todo, i, j);
      } else {
        TakenLast(m, delim, todo, i, j);
      }
    }
  }

  /**
   * The next token of the string at s, or behind the saved pointer when there is no s. Of the
   * tokens still to come it takes the first one: it ends it with a NUL, returns it, and saves
   * where the others are. When none is left it returns nothing, and so does every later call.
   */
  method StrtokR(mem: array<Byte>, s: Option<nat>, delim: seq<Byte>, last: Option<nat>)
    returns (tok: Option<nat>, last': Option<nat>)
    requires 0 !in delim
    requires s.Some? ==> Terminated(mem[..], s.value)
    requires s.None? && last.Some? ==> Terminated(mem[..], last.value)
    modifies mem
    ensures var todo := Remaining(old(mem[..]), delim, if s.Some? then s else last);
            if todo == [] then tok == None && last' == None && mem[..] == old(mem[..])
            else
              && tok == Some(todo[0].start) && todo[0].start < todo[0].end < mem.Length
              && mem[..] == old(mem[..])[todo[0].end := 0]
              && (last'.Some? ==> todo[0].end < last'.value && Terminated(mem[..], last'.value))
              && Remaining(mem[..], delim, last') == todo[1..]
  {
    hide StrLen, Terminated, Spans, SkipDelims, RunEnd, Remaining;
    tok, last' := None, None;
    var p := if s.Some? then s else last;
    if p.None? {
      NothingRemains(mem[..], delim);
      return;
    }
    ghost var m0 := mem[..];
    ghost var end := p.value + StrLen(m0, p.value);
    var i := SkipLeading(mem, delim, p.value);
    FirstToken(m0, delim, p.value);
    if mem[i] == 0 {
      return;
    }
    var j := ScanToken(mem, delim, i, end);
    tok := Some(i);
    if mem[j] != 0 {
      mem[j] := 0;
      last' := Some(j + 1);
    } else {
      NothingRemains(m0, delim);
    }
    assert mem[..] == m0[j := 0];
  }

  /** The memory with a NUL at the end of every token. */
  function CutAll(m: seq<Byte>, spans: seq<Span>): (r: seq<Byte>)
    requires forall k :: 0 <= k < |spans| ==> spans[k].end < |m|
    ensures |r| == |m|
  {
    if spans == [] then m else CutAll(m, spans[..|spans| - 1])[spans[|spans| - 1].end := 0]
  }

  /** Only ends of tokens are changed, to NUL. */
  lemma {:induction false} CutAllAt(m: seq<Byte>, spans: seq<Span>, a: nat)
    requires forall k :: 0 <= k < |spans| ==> spans[k].end < |m|
    requires a < |m|
    ensures (exists s :: s in spans && s.end == a) ==> CutAll(m, spans)[a] == 0
    ensures (forall s :: s in spans ==> s.end != a) ==> CutAll(m, spans)[a] == m[a]
    decreases |spans|
  {
    if spans != [] {
      var init, last := spans[..|spans| - 1], spans[|spans| - 1];
      CutAllAt(m, init, a);
      assert forall s :: s in spans <==> s in init || s == last;
    }
  }

  /** The tokens of a string, their ends inside memory. */
  lemma SpansInside(m: seq<Byte>, delim: seq<Byte>, start: nat)
    requires Terminated(m, start)
    ensures forall k :: 0 <= k < |Remaining(m, delim, Some(start))| ==> Remaining(m, delim, Some(start))[k].end < |m|
  {
    hide StrLen, Terminated, Spans;
    SpansAscend(m, delim, start, start + StrLen(m, start));
  }

  lemma CutAllSnoc(m: seq<Byte>, spans: seq<Span>, k: nat)
    requires k < |spans| && forall l :: 0 <= l < |spans| ==> spans[l].end < |m|
    ensures CutAll(m, spans[..k + 1]) == CutAll(m, spans[..k])[spans[k].end := 0]
  {
    assert spans[..k + 1][..k] == spans[..k];
  }

  lemma CutNothing(m: seq<Byte>)
    ensures CutAll(m, []) == m
  {
  }

  /**
   * A whole run: the first call with the string, the others with the saved pointer, until there
   * is no token. The tokens are those of the original string, in order, and in the end the
   * memory is the original with a NUL at the end of each of them.
   */
  method AllTokens(mem: array<Byte>, start: nat, delim: seq<Byte>) returns (tokens: seq<nat>)
    requires 0 !in delim && Terminated(mem[..], start)
    modifies mem
    ensures forall k :: 0 <= k < |Remaining(old(mem[..]), delim, Some(start))| ==>
              Remaining(old(mem[..]), delim, Some(start))[k].end < mem.Length
    ensures var spans := Remaining(old(mem[..]), delim, Some(start));
            && |tokens| == |spans| && (forall k :: 0 <= k < |spans| ==> tokens[k] == spans[k].start)
            && mem[..] == CutAll(old(mem[..]), spans)
  {
    hide Remaining, Terminated, CutAll;
    ghost var m0 := mem[..];
    ghost var spans := Remaining(m0, delim, Some(start));
    SpansInside(m0, delim, start);
    CutNothing(m0);
    assert spans[..0] == [] && spans[0..] == spans;
    tokens := [];
    var tok, last := StrtokR(mem, Some(start), delim, None);
    if spans != [] {
      CutAllSnoc(m0, spans, 0);
    }
    while tok.Some?
      invariant |tokens| <= |spans| && forall k :: 0 <= k < |tokens| ==> tokens[k] == spans[k].start
      invariant if tok.Some? then
                  && |tokens| < |spans| && tok.value == spans[|tokens|].start
                  && mem[..] == CutAll(m0, spans[..|tokens| + 1])
                  && (last.Some? ==> Terminated(mem[..], last.value))
                  && Remaining(mem[..], delim, last) == spans[|tokens| + 1..]
                else |tokens| == |spans| && mem[..] == CutAll(m0, spans[..|tokens|])
      decreases |spans| - |tokens|
    {
      tokens := tokens + [tok.value];
      tok, last := StrtokR(mem, None, delim, last);
      if |tokens| < |spans| {
        CutAllSnoc(m0, spans, |tokens|);
      }
    }
    assert spans[..|tokens|] == spans;
  }
}
