/** Flat physical memory: little-endian fields, block copies and C strings in a byte array. */
module Memory {
  import opened Bits

  datatype Option<T> = None | Some(value: T)

  /** Overwrite the bytes at address a. */
  function Poke(m: seq<Byte>, a: nat, data: seq<Byte>): (r: seq<Byte>)
    requires a + |data| <= |m|
    ensures |r| == |m|
  {
    seq(|m|, k requires 0 <= k < |m| => if a <= k < a + |data| then data[k - a] else m[k])
  }

  /** The two memories agree on the addresses lo to hi. */
  ghost predicate Same(m: seq<Byte>, m': seq<Byte>, lo: nat, hi: nat)
  {
    && |m| == |m'|
    && hi <= |m|
    && forall k :: lo <= k < hi ==> m[k] == m'[k]
  }

  /** The address ranges lo to hi and lo' to hi' do not meet. */
  ghost predicate Apart(lo: int, hi: int, lo': int, hi': int)
  {
    hi <= lo' || hi' <= lo
  }

  /** The same, where an empty range meets nothing. */
  ghost predicate Disjunct(lo: int, hi: int, lo': int, hi': int)
  {
    hi <= lo || hi' <= lo' || Apart(lo, hi, lo', hi')
  }

  /** At most the bytes from lo to hi differ. */
  ghost predicate ChangedOnly(m: seq<Byte>, m': seq<Byte>, lo: int, hi: int)
  {
    && |m| == |m'|
    && forall k :: 0 <= k < |m| && !(lo <= k < hi) ==> m[k] == m'[k]
  }

  /** Changes one after the other, from lo on and from mid on. */
  lemma ChangedThen(m: seq<Byte>, m': seq<Byte>, m'': seq<Byte>, lo: int, mid: int, hi: int)
    requires ChangedOnly(m, m', lo, hi) && ChangedOnly(m', m'', mid, hi) && lo <= mid
    ensures ChangedOnly(m, m'', lo, hi)
  {
  }

  lemma ChangedNothing(m: seq<Byte>, lo: int, hi: int)
    ensures ChangedOnly(m, m, lo, hi)
  {
  }

  lemma ChangedWiden(m: seq<Byte>, m': seq<Byte>, lo: int, lo': int, hi: int)
    requires ChangedOnly(m, m', lo, hi) && lo' <= lo
    ensures ChangedOnly(m, m', lo', hi)
  {
  }

  lemma PokeFacts(m: seq<Byte>, a: nat, data: seq<Byte>)
    requires a + |data| <= |m|
    ensures ChangedOnly(m, Poke(m, a, data), a, a + |data|)
    ensures Poke(m, a, data)[a..a + |data|] == data
  {
  }

  lemma SameSlice(m: seq<Byte>, m': seq<Byte>, lo: nat, hi: nat)
    requires lo <= hi
    requires Same(m, m', lo, hi)
    ensures m[lo..hi] == m'[lo..hi]
  {
  }

  lemma PokeNothing(m: seq<Byte>, a: nat)
    requires a <= |m|
    ensures Poke(m, a, []) == m
  {
  }

  lemma PokePoke(m: seq<Byte>, a: nat, x: seq<Byte>, y: seq<Byte>)
    requires a + |x| + |y| <= |m|
    ensures Poke(Poke(m, a, x), a + |x|, y) == Poke(m, a, x + y)
  {
  }

  function ReadHalf(m: seq<Byte>, a: nat): nat
    requires a + 2 <= |m|
  {
    m[a] as int + 0x100 * m[a + 1] as int
  }

  function Join(b0: int, b1: int, b2: int, b3: int): int
  {
    b0 + 0x100 * b1 + 0x1_0000 * b2 + 0x100_0000 * b3
  }

  function ReadWord(m: seq<Byte>, a: nat): Word
    requires a + 4 <= |m|
  {
    Join(m[a], m[a + 1], m[a + 2], m[a + 3])
  }

  function ReadQuad(m: seq<Byte>, a: nat): Quad
    requires a + 8 <= |m|
  {
    ReadWord(m, a) + 0x1_0000_0000 * ReadWord(m, a + 4)
  }

  /** The four bytes of a word, least significant first. */
  function WordBytes(w: Word): (r: seq<Byte>)
    ensures |r| == 4
  {
    [w % 0x100, w / 0x100 % 0x100, w / 0x1_0000 % 0x100, w / 0x100_0000]
  }

  function QuadBytes(q: Quad): (r: seq<Byte>)
    ensures |r| == 8
  {
    WordBytes(q % 0x1_0000_0000) + WordBytes(q / 0x1_0000_0000)
  }

  /** The two bytes of a half word, least significant first. */
  function HalfBytes(h: nat): (r: seq<Byte>)
    requires h < 0x1_0000
    ensures |r| == 2
  {
    [h % 0x100, h / 0x100]
  }

  lemma ReadBackHalf(m: seq<Byte>, a: nat, h: nat)
    requires a + 2 <= |m| && h < 0x1_0000
    requires m[a..a + 2] == HalfBytes(h)
    ensures ReadHalf(m, a) == h
  {
    assert m[a] == m[a..a + 2][0] && m[a + 1] == m[a..a + 2][1];
  }

  /** Words are read least significant byte first, and a half word is the lower half of a word. */
  lemma ByteOrder(m: seq<Byte>, a: nat)
    requires a + 4 <= |m|
    ensures var w := ReadWord(m, a);
            && w % 0x100 == m[a] && w / 0x100 % 0x100 == m[a + 1]
            && w / 0x1_0000 % 0x100 == m[a + 2] && w / 0x100_0000 == m[a + 3]
    ensures ReadHalf(m, a) == ReadWord(m, a) % 0x1_0000
  {
    var w, b1, b2, b3 := ReadWord(m, a), m[a + 1] as int, m[a + 2] as int, m[a + 3] as int;
    ModUnique(w, 0x100, b1 + 0x100 * b2 + 0x1_0000 * b3, m[a]);
    ModUnique(b1 + 0x100 * b2 + 0x1_0000 * b3, 0x100, b2 + 0x100 * b3, b1);
    ModUnique(w, 0x1_0000, b2 + 0x100 * b3, ReadHalf(m, a));
    ModUnique(b2 + 0x100 * b3, 0x100, b3, b2);
    ModUnique(w, 0x100_0000, b3, w - 0x100_0000 * b3);
  }

  /** The lower word of a quad word lies in front of the upper one. */
  lemma WordOrder(m: seq<Byte>, a: nat)
    requires a + 8 <= |m|
    ensures ReadQuad(m, a) % 0x1_0000_0000 == ReadWord(m, a) && ReadQuad(m, a) / 0x1_0000_0000 == ReadWord(m, a + 4)
  {
    ModUnique(ReadQuad(m, a), 0x1_0000_0000, ReadWord(m, a + 4), ReadWord(m, a));
  }

  lemma JoinSplit(w: Word)
    ensures Join(w % 0x100, w / 0x100 % 0x100, w / 0x1_0000 % 0x100, w / 0x100_0000) == w
  {
    var a := w / 0x100;
    var b := a / 0x100;
    ModUnique(w, 0x1_0000, b, 0x100 * (a % 0x100) + w % 0x100);
    ModUnique(w, 0x100_0000, b / 0x100, 0x1_0000 * (b % 0x100) + 0x100 * (a % 0x100) + w % 0x100);
  }

  lemma ReadBackWord(m: seq<Byte>, a: nat, w: Word)
    requires a + 4 <= |m|
    requires m[a..a + 4] == WordBytes(w)
    ensures ReadWord(m, a) == w
  {
    var b := WordBytes(w);
    var s := m[a..a + 4];
    assert m[a] == s[0] && m[a + 1] == s[1] && m[a + 2] == s[2] && m[a + 3] == s[3];
    JoinSplit(w);
  }

  lemma ReadBackQuad(m: seq<Byte>, a: nat, q: Quad)
    requires a + 8 <= |m|
    requires m[a..a + 8] == QuadBytes(q)
    ensures ReadQuad(m, a) == q
  {
    assert m[a..a + 4] == m[a..a + 8][..4] == WordBytes(q % 0x1_0000_0000);
    assert m[a + 4..a + 8] == m[a..a + 8][4..] == WordBytes(q / 0x1_0000_0000);
    ReadBackWord(m, a, q % 0x1_0000_0000);
    ReadBackWord(m, a + 4, q / 0x1_0000_0000);
  }

  /** What lies behind x in a record x + y + z at a. */
  lemma FieldAt(m: seq<Byte>, a: nat, x: seq<Byte>, y: seq<Byte>, z: seq<Byte>)
    requires a + |x + y + z| <= |m| && m[a..a + |x + y + z|] == x + y + z
    ensures m[a + |x|..a + |x| + |y|] == y
  {
    var s, f := m[a..a + |x + y + z|], m[a + |x|..a + |x| + |y|];
    assert forall k :: 0 <= k < |y| ==> f[k] == s[|x| + k] == y[k];
  }

  method StoreBytes(mem: array<Byte>, a: nat, data: seq<Byte>)
    requires a + |data| <= mem.Length
    modifies mem
    ensures mem[..] == Poke(old(mem[..]), a, data)
  {
    var i := 0;
    while i < |data|
      invariant 0 <= i <= |data|
      invariant forall k :: 0 <= k < mem.Length ==> mem[k] == if a <= k < a + i then data[k - a] else old(mem[k])
    {
      mem[a + i] := data[i];
      i := i + 1;
    }
    assert mem[..] == Poke(old(mem[..]), a, data);
  }

  method StoreWord(mem: array<Byte>, a: nat, w: Word)
    requires a + 4 <= mem.Length
    modifies mem
    ensures ReadWord(mem[..], a) == w
    ensures ChangedOnly(old(mem[..]), mem[..], a, a + 4)
  {
    ghost var m0 := mem[..];
    StoreBytes(mem, a, WordBytes(w));
    assert mem[..][a..a + 4] == WordBytes(w);
    ReadBackWord(mem[..], a, w);
  }

  /** A word is where it was when its bytes are. */
  lemma WordKept(m: seq<Byte>, m': seq<Byte>, a: nat)
    requires Same(m, m', a, a + 4)
    ensures ReadWord(m, a) == ReadWord(m', a)
  {
  }

  lemma ByteMoves(m: seq<Byte>, base: nat, img: seq<Byte>, a: nat)
    requires base + |img| <= |m| && m[base..base + |img|] == img && a < |img|
    ensures m[base + a] == img[a]
  {
    assert m[base..base + |img|][a] == img[a];
  }

  /** A word of an image is read wherever the image lies. */
  lemma WordMoves(m: seq<Byte>, base: nat, img: seq<Byte>, a: nat)
    requires base + |img| <= |m| && m[base..base + |img|] == img && a + 4 <= |img|
    ensures ReadWord(m, base + a) == ReadWord(img, a)
  {
    ByteMoves(m, base, img, a);
    ByteMoves(m, base, img, a + 1);
    ByteMoves(m, base, img, a + 2);
    ByteMoves(m, base, img, a + 3);
  }

  /** rep movsb: copy n bytes forward, for blocks that do not overlap. */
  method MemCpy(mem: array<Byte>, dst: nat, src: nat, n: nat)
    requires dst + n <= mem.Length && src + n <= mem.Length
    requires dst + n <= src || src + n <= dst
    modifies mem
    ensures mem[..] == Poke(old(mem[..]), dst, old(mem[..])[src..src + n])
    ensures ChangedOnly(old(mem[..]), mem[..], dst, dst + n)
    ensures mem[..][dst..dst + n] == old(mem[..])[src..src + n]
  {
    ghost var data := mem[..][src..src + n];
    var i := 0;
    while i < n
      invariant 0 <= i <= n
      invariant forall k :: 0 <= k < mem.Length ==> mem[k] == if dst <= k < dst + i then data[k - dst] else old(mem[k])
    {
      mem[dst + i] := mem[src + i];
      i := i + 1;
    }
    assert mem[..] == Poke(old(mem[..]), dst, data);
  }

  /** A NUL byte follows at or after a. */
  ghost predicate Terminated(m: seq<Byte>, a: nat)
  {
    exists k :: a <= k < |m| && m[k] == 0
  }

  /** The number of bytes before the first NUL. */
  ghost function StrLen(m: seq<Byte>, a: nat): (n: nat)
    requires Terminated(m, a)
    ensures a + n < |m|
    ensures m[a + n] == 0
    ensures forall k :: a <= k < a + n ==> m[k] != 0
    decreases |m| - a
  {
    if m[a] == 0 then 0 else 1 + StrLen(m, a + 1)
  }

  /** The string at a with its NUL. */
  ghost function CString(m: seq<Byte>, a: nat): seq<Byte>
    requires Terminated(m, a)
  {
    m[a..a + StrLen(m, a) + 1]
  }

  /** A string is what lies at its address, up to and including the first NUL. */
  lemma StringMeans(m: seq<Byte>, a: nat)
    requires Terminated(m, a)
    ensures var s := CString(m, a);
            && s != [] && a + |s| <= |m| && m[a..a + |s|] == s
            && s[|s| - 1] == 0 && forall k :: 0 <= k < |s| - 1 ==> s[k] != 0
  {
  }

  /** A string is determined by where its bytes, up to the first NUL, are found. */
  lemma StringAt(m: seq<Byte>, a: nat, m': seq<Byte>, a': nat)
    requires Terminated(m, a)
    requires a' + StrLen(m, a) + 1 <= |m'|
    requires m'[a'..a' + StrLen(m, a) + 1] == CString(m, a)
    ensures Terminated(m', a')
    ensures CString(m', a') == CString(m, a)
  {
    var n := StrLen(m, a);
    var s, s' := m[a..a + n + 1], m'[a'..a' + n + 1];
    assert forall k :: 0 <= k <= n ==> m'[a' + k] == s'[k] == s[k] == m[a + k];
    assert m'[a' + n] == 0;
    var n' := StrLen(m', a');
  }

  /** A string stays when its bytes do. */
  lemma StringKept(m: seq<Byte>, m': seq<Byte>, a: nat)
    requires Terminated(m, a)
    requires Same(m, m', a, a + StrLen(m, a) + 1)
    ensures Terminated(m', a)
    ensures StrLen(m', a) == StrLen(m, a)
    ensures CString(m', a) == CString(m, a)
  {
    SameSlice(m, m', a, a + StrLen(m, a) + 1);
    StringAt(m, a, m', a);
    assert |CString(m, a)| == StrLen(m, a) + 1;
  }

  method StrLenOf(mem: array<Byte>, a: nat) returns (n: nat)
    requires Terminated(mem[..], a)
    ensures n == StrLen(mem[..], a)
  {
    n := 0;
    while mem[a + n] != 0
      invariant a + n < mem.Length
      invariant forall k :: a <= k < a + n ==> mem[k] != 0
      invariant n <= StrLen(mem[..], a)
      decreases mem.Length - n
    {
      n := n + 1;
    }
  }
}
