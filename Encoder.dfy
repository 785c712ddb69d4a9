/** The compressor as a function of its input: one step per input byte, then the final
    two codewords. The method Codec.Compress is proved to compute exactly this. */
module Encoder {
  import opened Codebook

  /** The compressor's state between two input bytes.
      `st` is the codebook (string to code); `tbl` lists, by code, the string each code
      was assigned in the current epoch (256 holds the empty string), so the next code to
      assign is |tbl|; `W` is the codeword width; `current` is the match being extended;
      `out` the codewords written so far. */
  datatype EncState = EncState(st: map<seq<Byte>, int>, tbl: seq<seq<Byte>>, W: int,
                               current: seq<Byte>, out: seq<Codeword>)

  /** The codebook and the table by code agree: every single byte keeps its seeded code,
      and every code in the codebook has been assigned, is not end-of-stream, and names
      its string. */
  predicate CodesValid(st: map<seq<Byte>, int>, tbl: seq<seq<Byte>>)
  {
    && (forall b: Byte :: [b] in st && st[[b]] == b)
    && (forall s :: s in st ==> 0 <= st[s] < |tbl| && st[s] != EOF && tbl[st[s]] == s)
  }

  /** Every codeword written fits its width and is not end-of-stream. */
  predicate OutValid(out: seq<Codeword>)
  {
    forall k :: 0 <= k < |out| ==> Fits(out[k]) && out[k].code != EOF
  }

  /** What holds of the compressor's state throughout a run. */
  predicate EncValid(e: EncState)
  {
    && MinWidth <= e.W <= MaxWidth
    && FirstFree <= |e.tbl| <= Pow2(e.W)
    && |e.current| > 0 && e.current in e.st
    && CodesValid(e.st, e.tbl)
    && OutValid(e.out)
  }

  /** Entering a new string under the next code keeps the two views in agreement. */
  lemma CodesInsert(st: map<seq<Byte>, int>, tbl: seq<seq<Byte>>, ext: seq<Byte>)
    requires CodesValid(st, tbl) && ext !in st && |tbl| != EOF
    ensures CodesValid(st[ext := |tbl|], tbl + [ext])
  {
    var st1, tbl1 := st[ext := |tbl|], tbl + [ext];
    forall s | s in st1
      ensures 0 <= st1[s] < |tbl1| && st1[s] != EOF && tbl1[st1[s]] == s
    {
      if s != ext {
        assert st1[s] == st[s] && tbl1[st[s]] == tbl[st[s]];
      }
    }
  }

  /** The seeded codebook with one string of two bytes or more entered under 257. */
  lemma CodesReseed(ext: seq<Byte>)
    requires |ext| > 1
    ensures CodesValid(SeedMap()[ext := FirstFree], SeedTable() + [ext])
  {
    SeedConsistent();
    SeedMapFacts();
    assert ext !in SeedMap();
    CodesInsert(SeedMap(), SeedTable(), ext);
  }

  lemma OutAppend(out: seq<Codeword>, c: Codeword)
    requires OutValid(out) && Fits(c) && c.code != EOF
    ensures OutValid(out + [c])
  {
    assert forall k :: 0 <= k < |out| ==> (out + [c])[k] == out[k];
  }

  /** The state after the first byte has been read. */
  function Start(first: Byte): (e: EncState)
    ensures EncValid(e)
    ensures e.out == [] && e.tbl == SeedTable() && e.W == MinWidth && e.current == [first]
  {
    SeedConsistent();
    SeedMapFacts();
    assert Pow2(MinWidth) == 512 by { Pow2Bounds(MinWidth); }
    EncState(SeedMap(), SeedTable(), MinWidth, [first], [])
  }

  /** One iteration of the compressor's loop, reading `next`. */
  function EncStep(mode: CodeBookMode, e: EncState, next: Byte): (r: EncState)
    requires EncValid(e)
    ensures EncValid(r)
    ensures |e.out| <= |r.out| <= |e.out| + 1 && r.out[..|e.out|] == e.out
  {
    var ext := e.current + [next];
    if ext in e.st then e.(current := ext)
    else
      var c := Codeword(e.st[e.current], e.W);
      var out := e.out + [c];
      var code := |e.tbl|;
      assert Pow2(MinWidth) == 512 && 512 <= Pow2(e.W) by { Pow2Bounds(e.W); }
      assert OutValid(out) && out[..|e.out|] == e.out by { OutAppend(e.out, c); }
      assert [next] in e.st;
      if code < Pow2(e.W) then
        assert CodesValid(e.st[ext := code], e.tbl + [ext]) by { CodesInsert(e.st, e.tbl, ext); }
        EncState(e.st[ext := code], e.tbl + [ext], e.W, [next], out)
      else if e.W < MaxWidth then
        assert CodesValid(e.st[ext := code], e.tbl + [ext]) by { CodesInsert(e.st, e.tbl, ext); }
        assert Pow2(e.W + 1) == 2 * Pow2(e.W);
        EncState(e.st[ext := code], e.tbl + [ext], e.W + 1, [next], out)
      else if e.W == MaxWidth && mode == Reset then
        assert CodesValid(SeedMap()[ext := FirstFree], SeedTable() + [ext]) by {
          assert |ext| > 1;
          CodesReseed(ext);
        }
        EncState(SeedMap()[ext := FirstFree], SeedTable() + [ext], MinWidth, [next], out)
      else
        EncState(e.st, e.tbl, e.W, [next], out)
  }

  /** The compressor's loop over the rest of the input. */
  function EncFrom(mode: CodeBookMode, e: EncState, rest: seq<Byte>): (r: EncState)
    requires EncValid(e)
    ensures EncValid(r)
    ensures |e.out| <= |r.out| && r.out[..|e.out|] == e.out
    decreases |rest|
  {
    if rest == [] then e else EncFrom(mode, EncStep(mode, e, rest[0]), rest[1..])
  }

  /** Running the loop over `s + [b]` is running it over `s`, then one more step. */
  lemma {:induction false} EncFromSnoc(mode: CodeBookMode, e: EncState, s: seq<Byte>, b: Byte)
    requires EncValid(e)
    ensures EncFrom(mode, e, s + [b]) == EncStep(mode, EncFrom(mode, e, s), b)
    decreases |s|
  {
    if s == [] {
      assert [b][1..] == [];
    } else {
      assert (s + [b])[1..] == s[1..] + [b];
      EncFromSnoc(mode, EncStep(mode, e, s[0]), s[1..], b);
    }
  }

  /** The width the end-of-stream codeword is written at: the width the expander's check
      gives before it reads that codeword. */
  function EofWidth(mode: CodeBookMode, e: EncState): int
    requires EncValid(e)
  {
    Widen(mode, e.tbl, e.W).1
  }

  /** After the input is exhausted: the codeword for the pending match, then end-of-stream. */
  function Finish(mode: CodeBookMode, e: EncState): (out: seq<Codeword>)
    requires EncValid(e)
    ensures |out| == |e.out| + 2 && out[..|e.out|] == e.out
    ensures out[|e.out|].code < |e.tbl| && e.tbl[out[|e.out|].code] == e.current
    ensures out[|e.out| + 1].code == EOF
    ensures forall k :: 0 <= k < |out| ==> Fits(out[k])
  {
    assert 512 <= Pow2(EofWidth(mode, e)) by { Pow2Bounds(EofWidth(mode, e)); }
    e.out + [Codeword(e.st[e.current], e.W), Codeword(EOF, EofWidth(mode, e))]
  }

  /** The same, with end-of-stream written at the current width, as the source does. */
  function FinishAsWritten(e: EncState): (out: seq<Codeword>)
    requires EncValid(e)
    ensures |out| == |e.out| + 2 && out[..|e.out|] == e.out
    ensures out[|e.out|].code < |e.tbl| && e.tbl[out[|e.out|].code] == e.current
    ensures out[|e.out| + 1] == Codeword(EOF, e.W)
  {
    e.out + [Codeword(e.st[e.current], e.W), Codeword(EOF, e.W)]
  }

  /** Everything the compressor writes after the mode bit. */
  function Compressed(mode: CodeBookMode, input: seq<Byte>): seq<Codeword>
    requires |input| > 0
  {
    Finish(mode, EncFrom(mode, Start(input[0]), input[1..]))
  }

  function CompressedAsWritten(mode: CodeBookMode, input: seq<Byte>): seq<Codeword>
    requires |input| > 0
  {
    FinishAsWritten(EncFrom(mode, Start(input[0]), input[1..]))
  }

  /** What `Finish` writes: every codeword fits its width and only the last is
      end-of-stream. */
  lemma FinishShape(mode: CodeBookMode, e: EncState)
    requires EncValid(e)
    ensures var out := Finish(mode, e);
            && |out| >= 2 && out[|out| - 1].code == EOF
            && (forall k :: 0 <= k < |out| ==> Fits(out[k]))
            && (forall k :: 0 <= k < |out| - 1 ==> out[k].code != EOF)
  {
    var out := Finish(mode, e);
    forall k | 0 <= k < |out| - 1
      ensures out[k].code != EOF
    {
      if k < |e.out| {
        assert out[k] == out[..|e.out|][k] == e.out[k];
      }
    }
  }

  /** Every codeword written fits the width it is written at; only the last is end-of-stream. */
  lemma CodewordsFit(mode: CodeBookMode, input: seq<Byte>)
    requires |input| > 0
    ensures var out := Compressed(mode, input);
            && |out| >= 2 && out[|out| - 1].code == EOF
            && (forall k :: 0 <= k < |out| ==> Fits(out[k]))
            && (forall k :: 0 <= k < |out| - 1 ==> out[k].code != EOF)
  {
    var e := EncFrom(mode, Start(input[0]), input[1..]);
    assert Compressed(mode, input) == Finish(mode, e);
    FinishShape(mode, e);
  }

  /** An insertion by the compressor is exactly what the expander does one step later:
      its check before the next read, then the new entry if there is room. */
  lemma InsertMirrorsDecoder(mode: CodeBookMode, e: EncState, next: Byte)
    requires EncValid(e) && e.current + [next] !in e.st
    ensures var r := EncStep(mode, e, next);
            (r.tbl, r.W) == Update(mode, e.tbl, e.W, e.current + [next])
  {
  }

  /** The width only ever grows by one bit, exactly when the codebook is full below the
      maximum width, or drops back to the minimum on a reset. */
  lemma WidthProtocol(mode: CodeBookMode, e: EncState, next: Byte)
    requires EncValid(e)
    ensures var r := EncStep(mode, e, next);
            && (r.W == e.W + 1 <==> e.current + [next] !in e.st && |e.tbl| == Pow2(e.W) && e.W < MaxWidth)
            && (r.W < e.W <==> (e.current + [next] !in e.st && |e.tbl| == Pow2(e.W) && e.W == MaxWidth
                                && mode == Reset))
            && (r.W < e.W ==> r.W == MinWidth)
            && (r.W == e.W || r.W == e.W + 1 || r.W == MinWidth)
            && (e.current + [next] in e.st ==> r.W == e.W)
  {
  }

  /** A reset at the maximum width in RESET mode restores the seeded codebook, width 9 and
      capacity 512, and the new string then takes the first free code, 257. */
  lemma ResetReseeds(e: EncState, next: Byte)
    requires EncValid(e) && e.current + [next] !in e.st
    requires e.W == MaxWidth && |e.tbl| == Pow2(MaxWidth)
    ensures var r := EncStep(Reset, e, next);
            && r.st == SeedMap()[e.current + [next] := FirstFree]
            && r.tbl == SeedTable() + [e.current + [next]]
            && r.W == MinWidth && Pow2(r.W) == 512
            && r.current == [next]
  {
    Pow2Bounds(MinWidth);
  }

  /** In NONE mode, once the codebook is full at the maximum width it no longer changes,
      and the match restarts from the byte that ended it. */
  lemma FullCodebookFrozen(e: EncState, next: Byte)
    requires EncValid(e)
    requires e.W == MaxWidth && |e.tbl| == Pow2(MaxWidth)
    ensures var r := EncStep(None, e, next);
            && r.st == e.st && r.tbl == e.tbl && r.W == e.W
            && (e.current + [next] !in e.st ==> r.current == [next] && |r.out| == |e.out| + 1)
  {
  }
}
