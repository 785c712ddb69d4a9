/** The end-of-stream codeword as the compressor writes it, against the width the expander
    reads it at. When the input ends with the codebook exactly full, the expander's check
    before its next read widens (or resets) the codebook, so it reads end-of-stream one bit
    wider (or at 9 bits), while the compressor, which makes no such check at the end, writes
    it at the old width. The 256 bytes 0, 1, ..., 255 are an input where this happens. */
module EofFinding {
  import opened Codebook
  import opened Encoder
  import opened Decoder
  import opened RoundTrip

  /** The as-written stream and the corrected one agree on every codeword value and on
      every width but the last; they are the same stream exactly when the expander's check
      before reading end-of-stream leaves the width alone. */
  lemma AsWrittenDiffers(mode: CodeBookMode, input: seq<Byte>)
    requires |input| > 0
    ensures var e := EncFrom(mode, Start(input[0]), input[1..]);
            var a := CompressedAsWritten(mode, input);
            var c := Compressed(mode, input);
            && |a| == |c| && Values(a) == Values(c)
            && a[..|a| - 1] == c[..|c| - 1]
            && a[|a| - 1].width == e.W && c[|c| - 1].width == EofWidth(mode, e)
            && (a == c <==> e.W == EofWidth(mode, e))
  {
    var e := EncFrom(mode, Start(input[0]), input[1..]);
    Differs(mode, e);
  }

  lemma Differs(mode: CodeBookMode, e: EncState)
    requires EncValid(e)
    ensures var a := FinishAsWritten(e);
            var c := Finish(mode, e);
            && |a| == |c| && Values(a) == Values(c)
            && a[..|a| - 1] == c[..|c| - 1]
            && a[|a| - 1].width == e.W && c[|c| - 1].width == EofWidth(mode, e)
            && (a == c <==> e.W == EofWidth(mode, e))
  {
    var a, c := FinishAsWritten(e), Finish(mode, e);
    var pending := [Codeword(e.st[e.current], e.W)];
    assert a == e.out + pending + [Codeword(EOF, e.W)];
    assert c == e.out + pending + [Codeword(EOF, EofWidth(mode, e))];
    ValuesAppend(e.out + pending, [Codeword(EOF, e.W)]);
    ValuesAppend(e.out + pending, [Codeword(EOF, EofWidth(mode, e))]);
    if a == c {
      assert a[|a| - 1] == c[|c| - 1];
    }
  }

  /** The bytes 0, 1, ..., 255 in order. */
  function Iota(): (s: seq<Byte>)
    ensures |s| == R && forall j :: 0 <= j < R ==> s[j] == j
  {
    seq(R, (j: int) requires 0 <= j < R => j as Byte)
  }

  /** The compressor's state after the first `k` bytes of Iota: the width is still 9, every
      pair so far has taken a new code, the match is the last byte read, and the codebook
      holds single bytes and pairs of consecutive bytes below `k`. */
  predicate IotaShape(e: EncState, k: int)
  {
    && 1 <= k <= R
    && EncValid(e) && e.W == MinWidth && |e.tbl| == R + k && e.current == [(k - 1) as Byte]
    && forall s :: s in e.st ==> |s| == 1 || (|s| == 2 && s[1] == s[0] + 1 && s[1] < k)
  }

  lemma IotaFirst(e: EncState)
    requires e == Start(0)
    ensures IotaShape(e, 1)
  {
    SeedMapFacts();
  }

  /** Reading byte `k` makes the new pair (k - 1, k), which still fits in 9 bits. */
  lemma IotaStep(mode: CodeBookMode, e: EncState, k: int)
    requires 1 <= k < R && IotaShape(e, k)
    ensures IotaShape(EncStep(mode, e, k as Byte), k + 1)
  {
    var ext := e.current + [k as Byte];
    assert |ext| == 2 && ext[1] == k;
    assert ext !in e.st;
    assert Pow2(MinWidth) == 512 by { Pow2Bounds(MinWidth); }
    var r := EncStep(mode, e, k as Byte);
    assert r.st == e.st[ext := |e.tbl|];
  }

  lemma {:induction false} IotaPrefix(mode: CodeBookMode, k: int)
    requires 1 <= k <= R
    ensures IotaShape(EncFrom(mode, Start(0), Iota()[1..k]), k)
    decreases k
  {
    var s := Iota();
    var e0 := Start(0);
    if k == 1 {
      assert s[1..1] == [];
      IotaFirst(e0);
    } else {
      IotaPrefix(mode, k - 1);
      var e := EncFrom(mode, e0, s[1..k - 1]);
      SliceSnoc(s, 1, k - 1);
      EncFromSnoc(mode, e0, s[1..k - 1], s[k - 1]);
      IotaStep(mode, e, k - 1);
    }
  }

  /** On Iota the whole input is consumed with the codebook exactly full at width 9: the
      compressor as written puts end-of-stream at 9 bits, the expander reads it at 10. The
      expander also reads every other codeword at the width it was written at and restores
      the input, so the last codeword is the only disagreement. */
  lemma EofWidthMismatch(mode: CodeBookMode)
    ensures var a := CompressedAsWritten(mode, Iota());
            var dec := Expanded(FlagOf(mode), Values(a));
            && dec.Success? && dec.value.bytes == Iota()
            && |dec.value.widths| == |a|
            && a[|a| - 1].code == EOF && a[|a| - 1].width == 9
            && dec.value.widths[|a| - 1] == 10
            && dec.value.widths[..|a| - 1] == Widths(a[..|a| - 1])
  {
    var s := Iota();
    IotaPrefix(mode, R);
    SliceToEnd(s, 1);
    var e := EncFrom(mode, Start(s[0]), s[1..]);
    assert IotaShape(e, R);
    assert Pow2(MinWidth) == 512 by { Pow2Bounds(MinWidth); }
    assert EofWidth(mode, e) == 10;
    Differs(mode, e);
    RoundTrip.RoundTrip(mode, s);
    var a, c := CompressedAsWritten(mode, s), Compressed(mode, s);
    assert a == FinishAsWritten(e) && c == Finish(mode, e);
    WidthsLast(c);
    WidthsLast(a);
  }

  /** The widths of a non-empty stream: those of all codewords but the last, then the last. */
  lemma WidthsLast(cs: seq<Codeword>)
    requires |cs| > 0
    ensures Widths(cs) == Widths(cs[..|cs| - 1]) + [cs[|cs| - 1].width]
  {
    WidthsAppend(cs[..|cs| - 1], [cs[|cs| - 1]]);
    assert cs[..|cs| - 1] + [cs[|cs| - 1]] == cs;
  }
}
