/** Vocabulary shared by the LZW compressor and expander: symbols, codewords on the
    wire, the seeded codebook, and the width/capacity policy both sides follow. */
module Codebook {

  /** One input symbol. */
  type Byte = b: int | 0 <= b < 256

  /** Number of single-byte symbols; the code R itself is reserved for end-of-stream. */
  const R: int := 256
  const EOF: int := R
  /** The first code handed out to a string of two or more bytes. */
  const FirstFree: int := R + 1
  /** The codeword width starts at MinWidth bits and never exceeds MaxWidth bits. */
  const MinWidth: int := 9
  const MaxWidth: int := 16

  function Pow2(n: nat): (r: nat)
    ensures r >= 1
  {
    if n == 0 then 1 else 2 * Pow2(n - 1)
  }

  lemma {:induction false} Pow2Monotone(m: nat, n: nat)
    requires m <= n
    ensures Pow2(m) <= Pow2(n)
  {
    if m < n {
      Pow2Monotone(m, n - 1);
    }
  }

  /** The capacities at the two ends of the width range. */
  lemma Pow2Bounds(w: int)
    requires MinWidth <= w <= MaxWidth
    ensures Pow2(MinWidth) == 512 && Pow2(MaxWidth) == 65536
    ensures 512 <= Pow2(w) <= 65536
  {
    Pow2Monotone(MinWidth, w);
    Pow2Monotone(w, MaxWidth);
  }

  /** What happens once the codebook is full at the maximum width. */
  datatype CodeBookMode = None | Reset

  /** The leading bit of a compressed stream. */
  function FlagOf(mode: CodeBookMode): (flag: bool)
    ensures flag <==> mode == Reset
  {
    mode == Reset
  }

  /** The mode the expander infers from the leading bit. */
  function ModeOf(flag: bool): (mode: CodeBookMode)
    ensures FlagOf(mode) == flag
  {
    if flag then Reset else None
  }

  lemma FlagRoundTrip(mode: CodeBookMode)
    ensures ModeOf(FlagOf(mode)) == mode
  {
  }

  /** A codeword as written to the stream: its value and the number of bits it takes. */
  datatype Codeword = Codeword(code: nat, width: nat)

  /** The codeword can be written in its width, and that width is a legal one. */
  predicate Fits(c: Codeword)
  {
    MinWidth <= c.width <= MaxWidth && c.code < Pow2(c.width)
  }

  /** The codeword values of a stream, in order. */
  function Values(cs: seq<Codeword>): (vs: seq<nat>)
    ensures |vs| == |cs|
  {
    if cs == [] then [] else [cs[0].code] + Values(cs[1..])
  }

  /** The widths of a stream's codewords, in order. */
  function Widths(cs: seq<Codeword>): (ws: seq<int>)
    ensures |ws| == |cs|
  {
    if cs == [] then [] else [cs[0].width] + Widths(cs[1..])
  }

  /** Growing a slice by one element at its end. */
  lemma SliceSnoc<T>(s: seq<T>, i: nat, j: nat)
    requires i <= j < |s|
    ensures s[i..j + 1] == s[i..j] + [s[j]]
  {
  }

  /** A suffix is its first element followed by the next suffix. */
  lemma SliceCons<T>(s: seq<T>, i: nat)
    requires i < |s|
    ensures s[i..] == [s[i]] + s[i + 1..]
  {
  }

  lemma SliceToEnd<T>(s: seq<T>, i: nat)
    requires i <= |s|
    ensures s[i..|s|] == s[i..]
  {
  }

  lemma SnocTwice<T>(s: seq<T>, x: T, y: T)
    ensures s + [x] + [y] == s + [x, y]
  {
  }

  /** Values and Widths distribute over concatenation. */
  lemma {:induction false} ValuesAppend(a: seq<Codeword>, b: seq<Codeword>)
    ensures Values(a + b) == Values(a) + Values(b)
  {
    if a != [] {
      assert (a + b)[1..] == a[1..] + b;
      ValuesAppend(a[1..], b);
    } else {
      assert a + b == b;
    }
  }

  lemma {:induction false} WidthsAppend(a: seq<Codeword>, b: seq<Codeword>)
    ensures Widths(a + b) == Widths(a) + Widths(b)
  {
    if a != [] {
      assert (a + b)[1..] == a[1..] + b;
      WidthsAppend(a[1..], b);
    } else {
      assert a + b == b;
    }
  }

  /** The encoder's seeded codebook: every single byte is its own code. */
  function SeedMap(): map<seq<Byte>, int>
  {
    map b: Byte | 0 <= b < R :: [b] := b
  }

  /** The decoder's seeded codebook, indexed by code: codes 0..255 stand for the single
      bytes and code 256 (end-of-stream) for the empty string. */
  function SeedTable(): (tbl: seq<seq<Byte>>)
    ensures |tbl| == FirstFree
    ensures forall b: Byte :: tbl[b] == [b]
    ensures tbl[EOF] == []
  {
    seq(FirstFree, (c: int) requires 0 <= c < FirstFree => if c < R then [c as Byte] else [])
  }

  /** Exactly the single bytes are in the seeded codebook, each under its own value. */
  lemma SeedMapFacts()
    ensures forall b: Byte :: [b] in SeedMap() && SeedMap()[[b]] == b
    ensures forall s :: s in SeedMap() ==> |s| == 1 && SeedMap()[s] == s[0]
  {
  }

  /** A codebook holding every single byte, and nothing else, each under its own value is
      the seeded one. */
  lemma SeedMapUnique(st: map<seq<Byte>, int>)
    requires forall b: Byte :: [b] in st
    requires forall s :: s in st ==> |s| == 1 && st[s] == s[0]
    ensures st == SeedMap()
  {
    SeedMapFacts();
    forall s | s in SeedMap() ensures s in st {
      assert s == [s[0]];
    }
    forall s | s in st ensures s in SeedMap() {
      assert s == [s[0]];
    }
    assert st.Keys == SeedMap().Keys;
  }

  /** The two seeded codebooks are inverse to each other. */
  lemma SeedConsistent()
    ensures forall s :: s in SeedMap() ==> SeedMap()[s] < FirstFree && SeedMap()[s] != EOF
                                           && SeedTable()[SeedMap()[s]] == s
  {
    SeedMapFacts();
    forall s | s in SeedMap()
      ensures SeedMap()[s] < FirstFree && SeedMap()[s] != EOF && SeedTable()[SeedMap()[s]] == s
    {
      assert s == [s[0]];
    }
  }

  /** The check made before every codeword the expander reads, which is also the check the
      compressor makes before it inserts a new string: a full codebook below the maximum
      width gains one bit of width (and doubles its capacity); a full codebook at the
      maximum width goes back to the seeded one in RESET mode; otherwise nothing changes.
      The result is the codebook, indexed by code, and the width. */
  function Widen(mode: CodeBookMode, tbl: seq<seq<Byte>>, w: int): (r: (seq<seq<Byte>>, int))
    requires MinWidth <= w <= MaxWidth && |tbl| <= Pow2(w)
    ensures MinWidth <= r.1 <= MaxWidth && |r.0| <= Pow2(r.1)
    ensures |r.0| < Pow2(r.1) || r == (tbl, w)
    ensures r.1 == w + 1 <==> w < MaxWidth && |tbl| == Pow2(w)
    ensures r.1 == w + 1 ==> r.0 == tbl && Pow2(r.1) == 2 * Pow2(w)
    ensures r.1 < w <==> w == MaxWidth && |tbl| == Pow2(w) && mode == Reset
    ensures r.1 < w ==> r == (SeedTable(), MinWidth)
    ensures r.1 == w ==> r.0 == tbl
    ensures !(|tbl| == Pow2(w) && (w < MaxWidth || mode == Reset)) ==> r == (tbl, w)
  {
    assert Pow2(MinWidth) == 512 && 512 <= Pow2(w) by { Pow2Bounds(w); }
    if w < MaxWidth && |tbl| >= Pow2(w) then (tbl, w + 1)
    else if w == MaxWidth && |tbl| >= Pow2(w) && mode == Reset then (SeedTable(), MinWidth)
    else (tbl, w)
  }

  /** Appends `x` under the next code, provided that code still fits in `w` bits. */
  function AddIfRoom(tbl: seq<seq<Byte>>, w: nat, x: seq<Byte>): seq<seq<Byte>>
  {
    if |tbl| < Pow2(w) then tbl + [x] else tbl
  }

  /** The decoder's bookkeeping between two codewords: the check before the read, then
      the new entry `x` if there is room. */
  function Update(mode: CodeBookMode, tbl: seq<seq<Byte>>, w: int, x: seq<Byte>): (seq<seq<Byte>>, int)
    requires MinWidth <= w <= MaxWidth && |tbl| <= Pow2(w)
  {
    var (t, v) := Widen(mode, tbl, w);
    (AddIfRoom(t, v, x), v)
  }
}
