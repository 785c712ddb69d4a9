/** The expander as a function of the codeword values it reads. The method Codec.Expand
    is proved to compute exactly this. */
module Decoder {
  import opened Codebook

  /** Why an expansion stops without reaching end-of-stream. */
  datatype Error =
    | Truncated           // the stream ended before the end-of-stream codeword
    | InvalidCode(code: nat)  // a codeword that names no string

  datatype Result<T> = Success(value: T) | Failure(error: Error)

  /** A completed expansion: the bytes written, and the width each codeword was read at. */
  datatype Decoded = Decoded(bytes: seq<Byte>, widths: seq<int>)

  /** The expander's state at the top of its loop.
      `tbl` is the codebook indexed by code (its length is the next code to assign);
      `W` the codeword width; `val` the string of the codeword read last, not yet written;
      `out` the bytes written; `widths` the width of every codeword read so far. */
  datatype DecState = DecState(tbl: seq<seq<Byte>>, W: int, val: seq<Byte>,
                               out: seq<Byte>, widths: seq<int>)

  predicate DecValid(d: DecState)
  {
    && MinWidth <= d.W <= MaxWidth
    && FirstFree <= |d.tbl| <= Pow2(d.W)
    && forall c :: 0 <= c < |d.tbl| && c != EOF ==> |d.tbl[c]| > 0
  }

  /** The state after the first codeword, `first`, has been read at width 9. */
  function Initial(first: nat): (d: DecState)
    requires first <= EOF
    ensures DecValid(d)
    ensures d.tbl == SeedTable() && d.W == MinWidth && d.out == [] && d.widths == [MinWidth]
    ensures first < EOF ==> d.val == [first]
  {
    assert Pow2(MinWidth) == 512 by { Pow2Bounds(MinWidth); }
    DecState(SeedTable(), MinWidth, SeedTable()[first], [], [MinWidth])
  }

  /** The string the codeword `cw` (not end-of-stream) stands for, read at width `w` with
      codebook `tbl` after the string `val`. The codeword |tbl| names the entry the
      compressor made while the expander is still one step behind; that entry can only be
      `val` followed by its own first byte. Any larger codeword names nothing. */
  function Lookup(tbl: seq<seq<Byte>>, w: nat, val: seq<Byte>, cw: nat): (r: Result<seq<Byte>>)
    requires cw != EOF
    requires forall c :: 0 <= c < |tbl| && c != EOF ==> |tbl[c]| > 0
    ensures r.Success? <==> cw < Pow2(w) && (cw < |tbl| || (cw == |tbl| && val != []))
    ensures r.Success? ==> |r.value| > 0
    ensures r.Success? && cw < |tbl| ==> r.value == tbl[cw]
    ensures r.Success? && cw == |tbl| ==> |r.value| == |val| + 1 && r.value[..|val|] == val && r.value[|val|] == val[0]
  {
    if cw >= Pow2(w) || cw > |tbl| then Failure(InvalidCode(cw))
    else if cw == |tbl| then
      if val == [] then Failure(InvalidCode(cw)) else Success(val + [val[0]])
    else Success(tbl[cw])
  }

  /** The state after a codeword standing for `s` has been read: the check before the read
      has been applied, `val` written, and `val` followed by the first byte of `s` entered
      under the next code if that code still fits the width. */
  function Advance(mode: CodeBookMode, d: DecState, s: seq<Byte>): (r: DecState)
    requires DecValid(d) && |s| > 0
    ensures DecValid(r)
    ensures r.val == s && r.out == d.out + d.val
    ensures r.W == Widen(mode, d.tbl, d.W).1 && r.widths == d.widths + [r.W]
    ensures |r.tbl| == |Widen(mode, d.tbl, d.W).0| + 1 || r.tbl == d.tbl
    ensures var t := Widen(mode, d.tbl, d.W).0;
            && |t| <= |r.tbl| <= |t| + 1 && r.tbl[..|t|] == t
            && (|r.tbl| == |t| + 1 <==> |t| < Pow2(r.W))
            && (|r.tbl| == |t| + 1 ==> r.tbl[|t|] == d.val + [s[0]])
  {
    var (tbl, w) := Widen(mode, d.tbl, d.W);
    DecState(AddIfRoom(tbl, w, d.val + [s[0]]), w, s, d.out + d.val, d.widths + [w])
  }

  /** The expander's loop over the remaining codeword values. */
  function DecodeFrom(mode: CodeBookMode, d: DecState, codes: seq<nat>): (r: Result<Decoded>)
    requires DecValid(d)
    ensures r.Success? ==> |d.out| <= |r.value.bytes| && r.value.bytes[..|d.out|] == d.out
    ensures r.Success? ==> |d.widths| < |r.value.widths| && r.value.widths[..|d.widths|] == d.widths
    decreases |codes|
  {
    var (tbl, w) := Widen(mode, d.tbl, d.W);
    if |codes| == 0 then Failure(Truncated)
    else if codes[0] == EOF then Success(Decoded(d.out + d.val, d.widths + [w]))
    else
      match Lookup(tbl, w, d.val, codes[0])
      case Failure(err) => Failure(err)
      case Success(s) => DecodeFrom(mode, Advance(mode, d, s), codes[1..])
  }

  /** Reading one codeword that names `s`. */
  lemma DecodeStep(mode: CodeBookMode, d: DecState, cw: nat, vs: seq<nat>, s: seq<Byte>)
    requires DecValid(d) && cw != EOF && |s| > 0
    requires Lookup(Widen(mode, d.tbl, d.W).0, Widen(mode, d.tbl, d.W).1, d.val, cw) == Success(s)
    ensures DecodeFrom(mode, d, [cw] + vs) == DecodeFrom(mode, Advance(mode, d, s), vs)
  {
    assert ([cw] + vs)[0] == cw && ([cw] + vs)[1..] == vs;
  }

  /** Reading end-of-stream writes the pending string and stops. */
  lemma DecodeEof(mode: CodeBookMode, d: DecState)
    requires DecValid(d)
    ensures DecodeFrom(mode, d, [EOF]) == Success(Decoded(d.out + d.val, d.widths + [Widen(mode, d.tbl, d.W).1]))
  {
  }

  /** In NONE mode a full codebook at the maximum width no longer changes. */
  lemma FullTableFrozen(d: DecState, s: seq<Byte>)
    requires DecValid(d) && |s| > 0 && d.W == MaxWidth && |d.tbl| == Pow2(MaxWidth)
    ensures Advance(None, d, s).tbl == d.tbl && Advance(None, d, s).W == MaxWidth
  {
  }

  /** In RESET mode a full codebook at the maximum width goes back to the seeded one, at
      width 9, and the string read next takes code 257. */
  lemma FullTableReseeds(d: DecState, s: seq<Byte>)
    requires DecValid(d) && |s| > 0 && d.W == MaxWidth && |d.tbl| == Pow2(MaxWidth)
    ensures Advance(Reset, d, s).tbl == SeedTable() + [d.val + [s[0]]]
    ensures Advance(Reset, d, s).W == MinWidth
  {
    Pow2Bounds(MinWidth);
  }

  /** The check before a read keeps the expander's state valid. */
  lemma WidenValid(mode: CodeBookMode, d: DecState)
    requires DecValid(d)
    ensures DecValid(d.(tbl := Widen(mode, d.tbl, d.W).0, W := Widen(mode, d.tbl, d.W).1))
  {
  }

  /** The expander's loop at position `pos` of the codeword values: what one more read
      does, case by case. */
  lemma DecodeAt(mode: CodeBookMode, d: DecState, codes: seq<nat>, pos: nat)
    requires DecValid(d) && pos <= |codes|
    ensures pos == |codes| ==> DecodeFrom(mode, d, codes[pos..]) == Failure(Truncated)
    ensures pos < |codes| && codes[pos] == EOF ==>
              DecodeFrom(mode, d, codes[pos..])
              == Success(Decoded(d.out + d.val, d.widths + [Widen(mode, d.tbl, d.W).1]))
    ensures pos < |codes| && codes[pos] != EOF ==>
              var l := Lookup(Widen(mode, d.tbl, d.W).0, Widen(mode, d.tbl, d.W).1, d.val, codes[pos]);
              && (l.Failure? ==> DecodeFrom(mode, d, codes[pos..]) == Failure(l.error))
              && (l.Success? ==> DecodeFrom(mode, d, codes[pos..])
                                 == DecodeFrom(mode, Advance(mode, d, l.value), codes[pos + 1..]))
  {
    if pos < |codes| {
      assert codes[pos..][0] == codes[pos] && codes[pos..][1..] == codes[pos + 1..];
    }
  }

  /** The expander, given the mode bit and the codeword values in the order it reads them. */
  function Expanded(flag: bool, codes: seq<nat>): Result<Decoded>
  {
    if |codes| == 0 then Failure(Truncated)
    else if codes[0] > EOF then Failure(InvalidCode(codes[0]))
    else DecodeFrom(ModeOf(flag), Initial(codes[0]), codes[1..])
  }
}
