/**
 * The loader's own command line (parse_cmdline in standalone/bender.c, with
 * standalone/strncpy.c and standalone/strncmp.c).
 */
module Cmdline {
  import opened Bits
  import opened Memory
  import opened Strtok

  function Bytes(text: string): (r: seq<Byte>)
    requires forall k :: 0 <= k < |text| ==> 0 < text[k] as int < 0x100
    ensures |r| == |text| && forall k :: 0 <= k < |text| ==> r[k] == text[k] as int
  {
    seq(|text|, k requires 0 <= k < |text| => text[k] as int)
  }

  /** What the command line can change. */
  class Options {
    var promisc: bool
    var acceptLegacy: bool
    var physMax: Quad

    constructor ()
      ensures !promisc && !acceptLegacy && physMax == 0x8000_0000
    {
      promisc, acceptLegacy, physMax := false, false, 0x8000_0000;
    }
  }

  /** Copy a string to a buffer of n bytes, cut off or padded with NULs. */
  method StrNCpy(dst: array<Byte>, src: seq<Byte>, n: nat)
    requires n <= dst.Length && Terminated(src, 0)
    modifies dst
    ensures forall k :: 0 <= k < n ==> dst[k] == if k < StrLen(src, 0) then src[k] else 0
    ensures forall k :: n <= k < dst.Length ==> dst[k] == old(dst[k])
  {
    var d := 0;
    while d < n
      invariant 0 <= d <= n && d <= StrLen(src, 0)
      invariant forall k :: 0 <= k < d ==> dst[k] == src[k]
      invariant forall k :: n <= k < dst.Length ==> dst[k] == old(dst[k])
    {
      dst[d] := src[d];
      d := d + 1;
      if src[d - 1] == 0 {
        while d < n
          invariant StrLen(src, 0) < d <= n
          invariant forall k :: 0 <= k < d ==> dst[k] == if k < StrLen(src, 0) then src[k] else 0
          invariant forall k :: n <= k < dst.Length ==> dst[k] == old(dst[k])
        {
          dst[d] := 0;
          d := d + 1;
        }
        return;
      }
    }
  }

  /** The copy in the buffer is a string exactly when the original is shorter than the buffer. */
  lemma CopyTerminated(src: seq<Byte>, buf: seq<Byte>)
    requires Terminated(src, 0)
    requires forall k :: 0 <= k < |buf| ==> buf[k] == if k < StrLen(src, 0) then src[k] else 0
    ensures Terminated(buf, 0) <==> StrLen(src, 0) < |buf|
  {
    if StrLen(src, 0) < |buf| {
      assert buf[StrLen(src, 0)] == 0;
    }
  }

  /** The first difference of two strings is at position i, up to which none of them has ended. */
  ghost predicate DifferAt(x: seq<Byte>, a: nat, y: seq<Byte>, b: nat, i: nat)
    requires Terminated(x, a) && Terminated(y, b)
  {
    && i <= StrLen(x, a) && i <= StrLen(y, b)
    && x[a..a + i] == y[b..b + i] && x[a + i] != y[b + i]
  }

  /**
   * Compare two strings, at most n characters: zero without a difference, else the difference of
   * the first characters that differ.
   */
  method StrNCmp(x: seq<Byte>, a: nat, y: seq<Byte>, b: nat, n: Word) returns (r: int)
    requires Terminated(x, a) && Terminated(y, b)
    ensures r == 0 <==> forall i: nat :: i < n ==> !DifferAt(x, a, y, b, i)
    ensures r != 0 ==> exists i: nat :: i < n && DifferAt(x, a, y, b, i) && r == x[a + i] as int - y[b + i]
  {
    r := 0;
    var i: nat := 0;
    while i < n
      invariant i <= n && i <= StrLen(x, a) && i <= StrLen(y, b)
      invariant x[a..a + i] == y[b..b + i]
      invariant forall j: nat :: j < i ==> !DifferAt(x, a, y, b, j)
    {
      if x[a + i] != y[b + i] {
        r := x[a + i] as int - y[b + i];
        assert DifferAt(x, a, y, b, i);
        return;
      }
      if x[a + i] == 0 {
        return;
      }
      assert x[a..a + i + 1] == x[a..a + i] + [x[a + i]] && y[b..b + i + 1] == y[b..b + i] + [y[b + i]];
      i := i + 1;
    }
  }

  lemma StringIndex(x: seq<Byte>, a: nat, i: nat)
    requires Terminated(x, a) && i <= StrLen(x, a)
    ensures |CString(x, a)| == StrLen(x, a) + 1 && CString(x, a)[i] == x[a + i]
  {
  }

  lemma {:induction false} AgreeUpTo(x: seq<Byte>, a: nat, y: seq<Byte>, b: nat, n: nat, k: nat)
    requires Terminated(x, a) && Terminated(y, b) && k <= StrLen(x, a) && k < n
    requires forall i: nat :: i < n ==> !DifferAt(x, a, y, b, i)
    ensures k <= StrLen(y, b) && x[a..a + k] == y[b..b + k] && x[a + k] == y[b + k]
  {
    if k == 0 {
      assert x[a..a] == y[b..b];
    } else {
      AgreeUpTo(x, a, y, b, n, k - 1);
      assert x[a..a + k] == x[a..a + (k - 1)] + [x[a + (k - 1)]] && y[b..b + k] == y[b..b + (k - 1)] + [y[b + (k - 1)]];
    }
    assert !DifferAt(x, a, y, b, k);
  }

  /**
   * Strings are equal when they do not differ anywhere, and up to a bound above the length of one
   * of them that shows.
   */
  lemma EqualStrings(x: seq<Byte>, a: nat, y: seq<Byte>, b: nat, n: nat)
    requires Terminated(x, a) && Terminated(y, b) && StrLen(x, a) < n
    ensures (forall i: nat :: i < n ==> !DifferAt(x, a, y, b, i)) <==> CString(x, a) == CString(y, b)
  {
    if forall i: nat :: i < n ==> !DifferAt(x, a, y, b, i) {
      var k := StrLen(x, a);
      AgreeUpTo(x, a, y, b, n, k);
      assert StrLen(y, b) == k;
      assert x[a..a + k + 1] == x[a..a + k] + [x[a + k]] && y[b..b + k + 1] == y[b..b + k] + [y[b + k]];
    } else {
      var i: nat :| i < n && DifferAt(x, a, y, b, i);
      StringIndex(x, a, i);
      StringIndex(y, b, i);
    }
  }

  /** The space-separated words of a text. */
  function Words(t: seq<Byte>): (r: seq<seq<Byte>>)
    ensures |r| == |Spans(t, [0x20], 0, |t|)|
  {
    var spans := Spans(t, [0x20], 0, |t|);
    SpansAscend(t, [0x20], 0, |t|);
    seq(|spans|, k requires 0 <= k < |spans| => t[spans[k].start..spans[k].end])
  }

  /** A word: not empty, and without spaces. */
  ghost predicate IsWord(w: seq<Byte>)
  {
    w != [] && ' ' as int !in w
  }

  function Spaces(n: nat): seq<Byte>
  {
    seq(n, _ => ' ' as int)
  }

  /** At least one space is between any two words. */
  ghost predicate Spaced(ws: seq<seq<Byte>>, gaps: seq<nat>)
  {
    && |gaps| == |ws| + 1
    && (forall k :: 0 <= k < |ws| ==> IsWord(ws[k]))
    && forall k :: 1 <= k < |ws| ==> gaps[k] >= 1
  }

  /** The words with spaces in front of each and behind the last. */
  function Joined(ws: seq<seq<Byte>>, gaps: seq<nat>): seq<Byte>
    requires |gaps| == |ws| + 1
  {
    if ws == [] then Spaces(gaps[0]) else Spaces(gaps[0]) + ws[0] + Joined(ws[1..], gaps[1..])
  }

  lemma JoinedStart(ws: seq<seq<Byte>>, gaps: seq<nat>)
    requires Spaced(ws, gaps)
    ensures Joined(ws, gaps) != [] && (ws == [] || gaps[0] >= 1) ==> Joined(ws, gaps)[0] == ' ' as int
  {
    if ws != [] && gaps[0] >= 1 {
      assert Spaces(gaps[0])[0] == ' ' as int;
    }
  }

  lemma ThreeParts(t: seq<Byte>, a: nat, x: seq<Byte>, y: seq<Byte>, z: seq<Byte>)
    requires a <= |t| && t[a..] == x + y + z
    ensures a + |x| + |y| <= |t| && t[a..a + |x|] == x
    ensures t[a + |x|..a + |x| + |y|] == y && t[a + |x| + |y|..] == z
  {
    assert t[a..][..|x|] == x && t[a..][|x|..|x| + |y|] == y && t[a..][|x| + |y|..] == z;
  }

  lemma AllSpaces(t: seq<Byte>, a: nat, i: nat)
    requires a <= i <= |t| && t[a..i] == Spaces(i - a)
    ensures forall k :: a <= k < i ==> t[k] in [0x20]
  {
    assert forall k :: a <= k < i ==> t[k] == t[a..i][k - a];
  }

  lemma NoSpaces(t: seq<Byte>, i: nat, j: nat, w: seq<Byte>)
    requires i <= j <= |t| && t[i..j] == w && IsWord(w)
    ensures i < j && forall k :: i <= k < j ==> t[k] !in [0x20]
  {
    assert forall k :: i <= k < j ==> t[k] == w[k - i] && w[k - i] in w;
  }

  /** The first word of the rest of the text, from a on. */
  lemma FirstWord(t: seq<Byte>, a: nat, ws: seq<seq<Byte>>, gaps: seq<nat>)
    requires Spaced(ws, gaps) && ws != [] && a <= |t| && t[a..] == Joined(ws, gaps)
    ensures var i, j := a + gaps[0], a + gaps[0] + |ws[0]|;
            && i < j <= |t| && t[i..j] == ws[0] && t[j..] == Joined(ws[1..], gaps[1..])
            && SkipDelims(t, [0x20], a, |t|) == i && RunEnd(t, [0x20], i, |t|) == j
  {
    var i, j := a + gaps[0], a + gaps[0] + |ws[0]|;
    ThreeParts(t, a, Spaces(gaps[0]), ws[0], Joined(ws[1..], gaps[1..]));
    hide SkipDelims, RunEnd, Joined, Spaces;
    AllSpaces(t, a, i);
    NoSpaces(t, i, j, ws[0]);
    JoinedStart(ws[1..], gaps[1..]);
    assert j < |t| ==> t[j] == t[j..][0];
    SkipDelimsIs(t, [0x20], a, |t|, i);
    RunEndIs(t, [0x20], i, |t|, j);
  }

  lemma NoWord(t: seq<Byte>, a: nat)
    requires a <= |t| && t[a..] == Spaces(|t| - a)
    ensures Spans(t, [0x20], a, |t|) == []
  {
    assert t[a..|t|] == t[a..];
    AllSpaces(t, a, |t|);
    SkipDelimsIs(t, [0x20], a, |t|, |t|);
  }

  /** The spans of t are these words. */
  ghost predicate SpansAre(t: seq<Byte>, spans: seq<Span>, ws: seq<seq<Byte>>)
  {
    && |spans| == |ws|
    && forall k :: 0 <= k < |ws| ==> spans[k].start <= spans[k].end <= |t| && t[spans[k].start..spans[k].end] == ws[k]
  }

  lemma SpansCons(t: seq<Byte>, s: Span, spans: seq<Span>, ws: seq<seq<Byte>>)
    requires ws != [] && s.start <= s.end <= |t| && t[s.start..s.end] == ws[0] && SpansAre(t, spans, ws[1..])
    ensures SpansAre(t, [s] + spans, ws)
  {
    assert forall k :: 1 <= k < |ws| ==> ws[k] == ws[1..][k - 1] && ([s] + spans)[k] == spans[k - 1];
  }

  lemma SpansFirst(t: seq<Byte>, a: nat, i: nat, j: nat)
    requires a <= i < j <= |t| && SkipDelims(t, [0x20], a, |t|) == i && RunEnd(t, [0x20], i, |t|) == j
    ensures Spans(t, [0x20], a, |t|) == [Span(i, j)] + Spans(t, [0x20], j, |t|)
  {
    hide SkipDelims, RunEnd;
  }

  lemma RestSpaced(ws: seq<seq<Byte>>, gaps: seq<nat>)
    requires Spaced(ws, gaps) && ws != []
    ensures Spaced(ws[1..], gaps[1..])
  {
  }

  lemma NoWordJoined(t: seq<Byte>, a: nat, gaps: seq<nat>)
    requires |gaps| == 1 && a <= |t| && t[a..] == Joined([], gaps)
    ensures SpansAre(t, Spans(t, [0x20], a, |t|), [])
  {
    hide Spans;
    NoWord(t, a);
  }

  lemma {:induction false} SpansJoined(t: seq<Byte>, a: nat, ws: seq<seq<Byte>>, gaps: seq<nat>)
    requires Spaced(ws, gaps) && a <= |t| && t[a..] == Joined(ws, gaps)
    ensures SpansAre(t, Spans(t, [0x20], a, |t|), ws)
    decreases |ws|
  {
    hide SkipDelims, RunEnd, Spans, Joined, SpansAre, IsWord;
    if ws == [] {
      NoWordJoined(t, a, gaps);
    } else {
      var i, j := a + gaps[0], a + gaps[0] + |ws[0]|;
      FirstWord(t, a, ws, gaps);
      SpansFirst(t, a, i, j);
      RestSpaced(ws, gaps);
      SpansJoined(t, j, ws[1..], gaps[1..]);
      SpansCons(t, Span(i, j), Spans(t, [0x20], j, |t|), ws);
    }
  }

  /** Joining words with any number of spaces and splitting again gives the words. */
  lemma WordsReadBack(ws: seq<seq<Byte>>, gaps: seq<nat>)
    requires Spaced(ws, gaps)
    ensures Words(Joined(ws, gaps)) == ws
  {
    hide Spans, Joined;
    var t := Joined(ws, gaps);
    assert t[0..] == t;
    SpansJoined(t, 0, ws, gaps);
  }

  /** Some word other than the first is the keyword. */
  ghost predicate Mentioned(words: seq<seq<Byte>>, key: seq<Byte>)
  {
    exists k :: 1 <= k < |words| && words[k] == key
  }

  lemma MentionedSnoc(words: seq<seq<Byte>>, i: nat, key: seq<Byte>)
    requires i < |words|
    ensures Mentioned(words[..i + 1], key) <==> Mentioned(words[..i], key) || (i >= 1 && words[i] == key)
  {
    var more := words[..i + 1];
    if Mentioned(words[..i], key) {
      var k :| 1 <= k < i && words[..i][k] == key;
      assert more[k] == key;
    }
    if i >= 1 && words[i] == key {
      assert more[i] == key;
    }
    if Mentioned(more, key) {
      var k :| 1 <= k < |more| && more[k] == key;
      assert k < i ==> words[..i][k] == key;
    }
  }

  /** The buffer m0 holds the text t with a NUL behind it. */
  ghost predicate Holds(m0: seq<Byte>, t: seq<Byte>)
  {
    |t| < |m0| && m0[..|t|] == t && m0[|t|] == 0 && 0 !in t
  }

  /** In the buffer m, the words of m0 from i on are still to come; their bytes are as they were. */
  ghost predicate Tokenizing(m0: seq<Byte>, m: seq<Byte>, end: nat, last: Option<nat>, i: nat)
    requires end <= |m0|
  {
    var spans := Spans(m0, [0x20], 0, end);
    && i <= |spans| && |m| == |m0|
    && (last.Some? ==> Terminated(m, last.value))
    && Remaining(m, [0x20], last) == spans[i..]
    && forall k :: i <= k < |spans| ==> Agree(m0, m, spans[k].start, spans[k].end)
  }

  lemma TokenizingStarts(m0: seq<Byte>, t: seq<Byte>)
    requires Holds(m0, t)
    ensures Terminated(m0, 0) && Tokenizing(m0, m0, |t|, Some(0), 0)
    ensures Spans(m0, [0x20], 0, |t|) == Spans(t, [0x20], 0, |t|)
  {
    hide Spans;
    assert forall k :: 0 <= k < |t| ==> m0[k] == m0[..|t|][k] && t[k] in t;
    assert Terminated(m0, 0);
    assert StrLen(m0, 0) == |t|;
    SpansKept(t, m0, [0x20], 0, |t|);
    assert Spans(m0, [0x20], 0, |t|)[0..] == Spans(m0, [0x20], 0, |t|);
    SpansAscend(m0, [0x20], 0, |t|);
  }

  lemma CutString(m0: seq<Byte>, t: seq<Byte>, m: seq<Byte>, s: Span)
    requires Holds(m0, t) && s.start < s.end <= |t| && s.end < |m| == |m0|
    requires Agree(m0, m, s.start, s.end)
    ensures Terminated(m[s.end := 0], s.start)
    ensures CString(m[s.end := 0], s.start) == t[s.start..s.end] + [0]
  {
    var m' := m[s.end := 0];
    assert forall k :: s.start <= k < s.end ==> m'[k] == m0[k] == m0[..|t|][k] == t[k] && t[k] in t;
    assert m'[s.end] == 0;
    assert StrLen(m', s.start) == s.end - s.start;
    assert m'[s.start..s.end + 1] == t[s.start..s.end] + [0];
  }

  /** Cutting off token i leaves a string that is word i, and the later words. */
  lemma TokenStep(m0: seq<Byte>, t: seq<Byte>, m: seq<Byte>, last: Option<nat>, last': Option<nat>, i: nat)
    requires Holds(m0, t) && Tokenizing(m0, m, |t|, last, i)
    requires i < |Spans(m0, [0x20], 0, |t|)|
    requires var s := Spans(m0, [0x20], 0, |t|)[i];
             && s.start < s.end < |m|
             && (last'.Some? ==> Terminated(m[s.end := 0], last'.value))
             && Remaining(m[s.end := 0], [0x20], last') == Remaining(m, [0x20], last)[1..]
    ensures var s := Spans(m0, [0x20], 0, |t|)[i];
            && Tokenizing(m0, m[s.end := 0], |t|, last', i + 1)
            && Terminated(m[s.end := 0], s.start)
            && s.end <= |t| && CString(m[s.end := 0], s.start) == t[s.start..s.end] + [0]
  {
    hide Spans, Remaining;
    var spans := Spans(m0, [0x20], 0, |t|);
    var s := spans[i];
    var m' := m[s.end := 0];
    SpansAscend(m0, [0x20], 0, |t|);
    assert spans[i..][1..] == spans[i + 1..];
    forall k | i + 1 <= k < |spans|
      ensures Agree(m0, m', spans[k].start, spans[k].end)
    {
    }
    CutString(m0, t, m, s);
  }

  /** The next word, if there is one. */
  method NextToken(buf: array<Byte>, s: Option<nat>, last: Option<nat>, ghost m0: seq<Byte>, ghost t: seq<Byte>,
                   ghost i: nat)
    returns (tok: Option<nat>, last': Option<nat>)
    requires Holds(m0, t) && Tokenizing(m0, buf[..], |t|, if s.Some? then s else last, i)
    requires Spans(m0, [0x20], 0, |t|) == Spans(t, [0x20], 0, |t|)
    modifies buf
    ensures tok.Some? <==> i < |Words(t)|
    ensures tok.Some? ==>
              && Tokenizing(m0, buf[..], |t|, last', i + 1)
              && Terminated(buf[..], tok.value) && CString(buf[..], tok.value) == Words(t)[i] + [0]
  {
    hide Spans, Remaining, Terminated, StrLen, CString;
    ghost var m := buf[..];
    ghost var spans := Spans(m0, [0x20], 0, |t|);
    tok, last' := StrtokR(buf, s, [0x20], last);
    if i < |spans| {
      assert spans[i..][0] == spans[i];
      TokenStep(m0, t, m, if s.Some? then s else last, last', i);
    }
  }

  /** The options that the words mention. */
  ghost predicate OptionsSet(words: seq<seq<Byte>>, promisc: bool, promisc': bool, physMax: Quad, physMax': Quad,
                             legacy: bool, legacy': bool)
  {
    && (promisc' <==> promisc || Mentioned(words, Bytes("promisc")))
    && physMax' == (if Mentioned(words, Bytes("phys_max=256M")) then 0x1000_0000 else physMax)
    && (legacy' <==> legacy || Mentioned(words, Bytes("accept_legacy")))
  }

  /** strcmp with a keyword. */
  method IsKeyword(buf: seq<Byte>, a: nat, key: seq<Byte>, ghost word: seq<Byte>) returns (same: bool)
    requires Terminated(buf, a) && CString(buf, a) == word + [0] && |word| < 0xFFFF_FFFF
    requires 0 !in key
    ensures same <==> word == key
  {
    assert (key + [0])[|key|] == 0;
    assert forall k :: 0 <= k < |key| ==> (key + [0])[k] == key[k] && key[k] in key;
    assert Terminated(key + [0], 0) && StrLen(key + [0], 0) == |key|;
    assert |CString(buf, a)| == StrLen(buf, a) + 1;
    assert CString(key + [0], 0) == key + [0];
    EqualStrings(buf, a, key + [0], 0, 0xFFFF_FFFF);
    var r := StrNCmp(buf, a, key + [0], 0, 0xFFFF_FFFF);
    same := r == 0;
    assert (word + [0])[..|word|] == word && (key + [0])[..|key|] == key;
  }

  lemma KeywordsDiffer()
    ensures Bytes("promisc") != Bytes("phys_max=256M") && Bytes("promisc") != Bytes("accept_legacy")
    ensures Bytes("phys_max=256M") != Bytes("accept_legacy")
  {
    assert |Bytes("promisc")| == 7 && |Bytes("phys_max=256M")| == 13;
    assert Bytes("phys_max=256M")[0] == 'p' as int && Bytes("accept_legacy")[0] == 'a' as int;
  }

  /** Act on one word. */
  method ApplyWord(buf: array<Byte>, tok: nat, opts: Options, ghost words: seq<seq<Byte>>, ghost i: nat,
                   ghost promisc: bool, ghost physMax: Quad, ghost legacy: bool)
    requires Terminated(buf[..], tok) && 1 <= i < |words| && CString(buf[..], tok) == words[i] + [0]
             && |words[i]| < 0xFFFF_FFFF
    requires OptionsSet(words[..i], promisc, opts.promisc, physMax, opts.physMax, legacy, opts.acceptLegacy)
    modifies opts
    ensures OptionsSet(words[..i + 1], promisc, opts.promisc, physMax, opts.physMax, legacy, opts.acceptLegacy)
  {
    hide Terminated, CString, Mentioned;
    KeywordsDiffer();
    MentionedSnoc(words, i, Bytes("promisc"));
    MentionedSnoc(words, i, Bytes("phys_max=256M"));
    MentionedSnoc(words, i, Bytes("accept_legacy"));
    var same := IsKeyword(buf[..], tok, Bytes("promisc"), words[i]);
    if same {
      opts.promisc := true;
      return;
    }
    same := IsKeyword(buf[..], tok, Bytes("phys_max=256M"), words[i]);
    if same {
      opts.physMax := 0x1000_0000;
      return;
    }
    same := IsKeyword(buf[..], tok, Bytes("accept_legacy"), words[i]);
    if same {
      opts.acceptLegacy := true;
    }
  }

  lemma NothingMentioned(words: seq<seq<Byte>>)
    ensures forall key :: !Mentioned(words[..0], key)
    ensures |words| > 0 ==> forall key :: !Mentioned(words[..1], key)
  {
  }

  /**
   * Set the options of the command line, which is shorter than 256 bytes: each one exactly when
   * some space-separated word other than the first is its keyword.
   */
  method ParseCmdline(cmdline: seq<Byte>, opts: Options)
    requires Terminated(cmdline, 0) && StrLen(cmdline, 0) < 256
    modifies opts
    ensures var words := Words(cmdline[..StrLen(cmdline, 0)]);
            && (opts.promisc <==> old(opts.promisc) || Mentioned(words, Bytes("promisc")))
            && opts.physMax == (if Mentioned(words, Bytes("phys_max=256M")) then 0x1000_0000 else old(opts.physMax))
            && (opts.acceptLegacy <==> old(opts.acceptLegacy) || Mentioned(words, Bytes("accept_legacy")))
  {
    hide Words, Tokenizing, Mentioned, Spans, Bytes, Terminated, StrLen;
    ghost var t := cmdline[..StrLen(cmdline, 0)];
    ghost var words := Words(t);
    var buf := new Byte[256](_ => 0);
    StrNCpy(buf, cmdline, 256);
    ghost var m0 := buf[..];
    assert Holds(m0, t) by {
      assert m0[..|t|] == t;
    }
    TokenizingStarts(m0, t);
    var tok, last := NextToken(buf, Some(0), None, m0, t, 0);
    var i := 0;
    NothingMentioned(words);
    while tok.Some?
      invariant 0 <= i <= |words| && (tok.Some? <==> i < |words|)
      invariant tok.Some? ==>
                  && Tokenizing(m0, buf[..], |t|, last, i + 1)
                  && Terminated(buf[..], tok.value) && CString(buf[..], tok.value) == words[i] + [0]
      invariant OptionsSet(words[..i], old(opts.promisc), opts.promisc, old(opts.physMax), opts.physMax,
                           old(opts.acceptLegacy), opts.acceptLegacy)
      invariant fresh(buf)
      decreases |words| - i
    {
      if i != 0 {
        ApplyWord(buf, tok.value, opts, words, i, old(opts.promisc), old(opts.physMax), old(opts.acceptLegacy));
      }
      tok, last := NextToken(buf, None, last, m0, t, i + 1);
      i := i + 1;
    }
    assert words[..i] == words;
  }
}
