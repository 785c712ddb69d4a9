/** The expander rebuilds the compressor's codebook one step behind it, reads every
    codeword at the width it was written at, and writes back the compressor's input. */
module RoundTrip {
  import opened Codebook
  import opened Encoder
  import opened Decoder

  /** The expander state `d`, reached after reading every codeword the compressor state `e`
      has written, is one step behind `e`: applying the expander's check and entering the
      last string written followed by the first byte of the pending match gives `e`'s
      codebook and width. */
  predicate Related(mode: CodeBookMode, e: EncState, d: DecState)
  {
    && EncValid(e) && DecValid(d)
    && d.val != [] && d.widths == Widths(e.out)
    && (e.tbl, e.W) == Update(mode, d.tbl, d.W, d.val + [e.current[0]])
  }

  /** On reading the codeword for `e`'s pending match, the expander recovers that match
      and afterwards holds exactly `e`'s codebook and width. */
  predicate ReadsMatch(mode: CodeBookMode, e: EncState, d: DecState)
    requires EncValid(e) && DecValid(d)
  {
    var cw := e.st[e.current];
    && cw != EOF
    && Lookup(Widen(mode, d.tbl, d.W).0, Widen(mode, d.tbl, d.W).1, d.val, cw) == Success(e.current)
    && Advance(mode, d, e.current) == DecState(e.tbl, e.W, e.current, d.out + d.val, d.widths + [e.W])
  }

  /** Related states agree code by code, so the expander reads the pending match right,
      including the case where its codeword is the entry the expander has not made yet. */
  lemma CatchUp(mode: CodeBookMode, e: EncState, d: DecState)
    requires Related(mode, e, d)
    ensures ReadsMatch(mode, e, d)
  {
    var (t, w) := Widen(mode, d.tbl, d.W);
    var cw := e.st[e.current];
    var x := d.val + [e.current[0]];
    assert e.W == w;
    assert cw < |e.tbl| && e.tbl[cw] == e.current;
    if cw < |t| {
      assert e.tbl[cw] == t[cw];
    } else {
      assert |e.tbl| == |t| + 1 && e.tbl == t + [x];
      assert e.current == x;
      assert e.current[0] == d.val[0];
    }
    assert Lookup(t, w, d.val, cw) == Success(e.current);
  }

  /** The expander, from state `d`, turns what the compressor writes from state `e` onwards
      (over the remaining input `rest`) into the bytes covered so far followed by `rest`,
      reading each codeword at the width it was written at. */
  predicate Replays(mode: CodeBookMode, e: EncState, d: DecState, rest: seq<Byte>)
    requires EncValid(e) && DecValid(d)
  {
    var f := Finish(mode, EncFrom(mode, e, rest));
    && |e.out| <= |f|
    && DecodeFrom(mode, d, Values(f[|e.out|..])) == Success(Decoded(d.out + d.val + e.current + rest, Widths(f)))
  }

  /** At the end of the input: the codeword for the pending match, then end-of-stream. */
  lemma ReplayEnd(mode: CodeBookMode, e: EncState, d: DecState)
    requires EncValid(e) && DecValid(d) && ReadsMatch(mode, e, d) && d.widths == Widths(e.out)
    ensures Replays(mode, e, d, [])
  {
    var f := Finish(mode, e);
    var cw := e.st[e.current];
    var d1 := Advance(mode, d, e.current);
    var tail := [Codeword(cw, e.W), Codeword(EOF, EofWidth(mode, e))];
    assert f == e.out + tail;
    assert f[|e.out|..] == tail;
    assert Values(tail) == [cw] + [EOF];
    DecodeStep(mode, d, cw, [EOF], e.current);
    DecodeEof(mode, d1);
    WidthsAppend(e.out, tail);
    assert Widths(tail) == [e.W, EofWidth(mode, e)];
    assert d.out + d.val + e.current + [] == d1.out + d1.val;
    assert Widths(f) == d1.widths + [EofWidth(mode, e)];
  }

  lemma FinishUnfold(mode: CodeBookMode, e: EncState, rest: seq<Byte>)
    requires EncValid(e) && rest != []
    ensures Finish(mode, EncFrom(mode, e, rest)) == Finish(mode, EncFrom(mode, EncStep(mode, e, rest[0]), rest[1..]))
  {
  }

  /** A byte that extends the match is absorbed into it. */
  lemma StepExtends(mode: CodeBookMode, e: EncState, next: Byte)
    requires EncValid(e) && e.current + [next] in e.st
    ensures EncStep(mode, e, next).out == e.out && EncStep(mode, e, next).current == e.current + [next]
  {
  }

  /** A byte that ends the match has the match's code written and starts a new match. */
  lemma StepEmits(mode: CodeBookMode, e: EncState, next: Byte)
    requires EncValid(e) && e.current + [next] !in e.st
    ensures EncStep(mode, e, next).out == e.out + [Codeword(e.st[e.current], e.W)]
    ensures EncStep(mode, e, next).current == [next]
  {
  }

  lemma SplitHead(a: seq<Byte>, rest: seq<Byte>)
    requires |a| == 1 && rest != []
    ensures a + rest == [a[0]] + [rest[0]] + rest[1..]
  {
    assert rest == [rest[0]] + rest[1..];
    assert a == [a[0]];
  }

  lemma ConsumeOne(pre: seq<Byte>, cur: seq<Byte>, rest: seq<Byte>)
    requires rest != []
    ensures pre + cur + rest == pre + (cur + [rest[0]]) + rest[1..]
    ensures pre + cur + rest == (pre + cur) + [rest[0]] + rest[1..]
  {
    assert rest == [rest[0]] + rest[1..];
  }

  /** A byte that extends the match writes nothing and leaves the expander where it is. */
  lemma ReplayExtend(mode: CodeBookMode, e: EncState, d: DecState, rest: seq<Byte>)
    requires EncValid(e) && DecValid(d) && rest != [] && e.current + [rest[0]] in e.st
    requires Replays(mode, EncStep(mode, e, rest[0]), d, rest[1..])
    ensures Replays(mode, e, d, rest)
  {
    FinishUnfold(mode, e, rest);
    StepExtends(mode, e, rest[0]);
    ConsumeOne(d.out + d.val, e.current, rest);
  }

  lemma SplitFirst(f: seq<Codeword>, i: nat, c: Codeword)
    requires i < |f| && f[i] == c
    ensures Values(f[i..]) == [c.code] + Values(f[i + 1..])
  {
    assert f[i..] == [c] + f[i + 1..];
    ValuesAppend([c], f[i + 1..]);
  }

  lemma PrefixIndex(a: seq<Codeword>, b: seq<Codeword>, c: seq<Codeword>, i: nat)
    requires |c| <= |b| <= |a| && a[..|b|] == b && b[..|c|] == c && i < |c|
    ensures a[i] == c[i]
  {
    assert a[i] == a[..|b|][i] == b[i];
    assert b[i] == b[..|c|][i];
  }

  /** A codeword once written stays in the output. */
  lemma EmittedKept(mode: CodeBookMode, e: EncState, rest: seq<Byte>)
    requires EncValid(e) && |e.out| > 0
    ensures Finish(mode, EncFrom(mode, e, rest))[|e.out| - 1] == e.out[|e.out| - 1]
  {
    var g := EncFrom(mode, e, rest);
    PrefixIndex(Finish(mode, g), g.out, e.out, |e.out| - 1);
  }

  /** A byte that ends the match writes one codeword, which the expander reads next. */
  lemma ReplayEmit(mode: CodeBookMode, e: EncState, d: DecState, rest: seq<Byte>)
    requires EncValid(e) && DecValid(d) && ReadsMatch(mode, e, d)
    requires rest != [] && e.current + [rest[0]] !in e.st
    requires Replays(mode, EncStep(mode, e, rest[0]), Advance(mode, d, e.current), rest[1..])
    ensures Replays(mode, e, d, rest)
  {
    var cw := e.st[e.current];
    var e1 := EncStep(mode, e, rest[0]);
    var f := Finish(mode, EncFrom(mode, e1, rest[1..]));
    FinishUnfold(mode, e, rest);
    StepEmits(mode, e, rest[0]);
    EmittedKept(mode, e1, rest[1..]);
    SplitFirst(f, |e.out|, Codeword(cw, e.W));
    DecodeStep(mode, d, cw, Values(f[|e1.out|..]), e.current);
    ConsumeOne(d.out + d.val, e.current, rest);
    var d1 := Advance(mode, d, e.current);
    assert d1.out + d1.val + e1.current + rest[1..] == d.out + d.val + e.current + rest;
  }

  /** After an emitted codeword the two sides are related again. */
  lemma RelatedAfterEmit(mode: CodeBookMode, e: EncState, d: DecState, next: Byte)
    requires Related(mode, e, d) && e.current + [next] !in e.st
    ensures Related(mode, EncStep(mode, e, next), Advance(mode, d, e.current))
  {
    CatchUp(mode, e, d);
    InsertMirrorsDecoder(mode, e, next);
    var e1 := EncStep(mode, e, next);
    assert e1.out == e.out + [Codeword(e.st[e.current], e.W)] && e1.current == [next];
    WidthsAppend(e.out, [Codeword(e.st[e.current], e.W)]);
  }

  /** From related states, the expander replays the compressor to the end of the input. */
  lemma {:induction false} Simulation(mode: CodeBookMode, e: EncState, d: DecState, rest: seq<Byte>)
    requires Related(mode, e, d)
    ensures Replays(mode, e, d, rest)
    decreases |rest|
  {
    CatchUp(mode, e, d);
    if rest == [] {
      ReplayEnd(mode, e, d);
    } else if e.current + [rest[0]] in e.st {
      var e1 := EncStep(mode, e, rest[0]);
      assert Related(mode, e1, d);
      Simulation(mode, e1, d, rest[1..]);
      ReplayExtend(mode, e, d, rest);
    } else {
      RelatedAfterEmit(mode, e, d, rest[0]);
      Simulation(mode, EncStep(mode, e, rest[0]), Advance(mode, d, e.current), rest[1..]);
      ReplayEmit(mode, e, d, rest);
    }
  }

  /** The compressor before it has written anything: its codebook is the seeded one, so
      its pending match is a single byte. */
  predicate Fresh(e: EncState)
  {
    EncValid(e) && e.out == [] && e.tbl == SeedTable() && e.W == MinWidth
  }

  lemma FreshMatch(e: EncState)
    requires Fresh(e)
    ensures e.st[e.current] < R && e.current == [e.st[e.current]]
  {
    var c := e.st[e.current];
    assert c < |SeedTable()| && c != EOF;
    var b: Byte := c;
    assert SeedTable()[b] == [b];
  }

  lemma PairFields(a: Codeword, b: Codeword)
    ensures Values([a, b]) == [a.code, b.code] && Widths([a, b]) == [a.width, b.width]
  {
    assert [a] + [b] == [a, b];
    ValuesAppend([a], [b]);
    WidthsAppend([a], [b]);
  }

  /** A one-byte input: the byte's own code, then end-of-stream, both at width 9. */
  lemma ReplaySingle(mode: CodeBookMode, e: EncState)
    requires Fresh(e)
    ensures var f := Finish(mode, e);
            Expanded(FlagOf(mode), Values(f)) == Success(Decoded(e.current, Widths(f)))
  {
    FlagRoundTrip(mode);
    FreshMatch(e);
    var b := e.st[e.current];
    assert Pow2(MinWidth) == 512 by { Pow2Bounds(MinWidth); }
    assert Widen(mode, SeedTable(), MinWidth) == (SeedTable(), MinWidth);
    var f := Finish(mode, e);
    assert f == [Codeword(b, MinWidth), Codeword(EOF, MinWidth)];
    PairFields(Codeword(b, MinWidth), Codeword(EOF, MinWidth));
    var vs := Values(f);
    assert vs[1..] == [EOF];
    var d0 := Initial(b);
    DecodeEof(mode, d0);
    assert Expanded(FlagOf(mode), vs) == DecodeFrom(mode, d0, [EOF]);
    assert d0.out + d0.val == e.current;
    assert d0.widths + [MinWidth] == Widths(f);
  }

  /** The expander's first read: the first codeword, if a single byte's code, seeds its
      state directly. */
  lemma ExpandedFirst(mode: CodeBookMode, f: seq<Codeword>, cw: nat)
    requires |f| > 0 && f[0].code == cw && cw < EOF
    ensures Expanded(FlagOf(mode), Values(f)) == DecodeFrom(mode, Initial(cw), Values(f[1..]))
  {
    FlagRoundTrip(mode);
    SplitFirst(f, 0, f[0]);
    assert f[0..] == f;
  }

  /** The first byte after the start always ends the first match (only single bytes are
      in the seeded codebook), and then the two sides are related. */
  lemma FirstEmit(mode: CodeBookMode, e: EncState, next: Byte)
    requires Fresh(e)
    ensures var cw := e.st[e.current];
            && cw < R && e.current == [cw]
            && e.current + [next] !in e.st
            && EncStep(mode, e, next).out == [Codeword(cw, MinWidth)]
            && EncStep(mode, e, next).current == [next]
            && Related(mode, EncStep(mode, e, next), Initial(cw))
  {
    FreshMatch(e);
    assert |e.current + [next]| == 2;
    StepEmits(mode, e, next);
    InsertMirrorsDecoder(mode, e, next);
    var e1 := EncStep(mode, e, next);
    assert Widths(e1.out) == [MinWidth];
  }

  /** Once the first codeword is written, the expander seeded by it replays the rest. */
  lemma ReplayAfterFirst(mode: CodeBookMode, e1: EncState, cw: nat, rest: seq<Byte>)
    requires cw < EOF && Related(mode, e1, Initial(cw)) && e1.out == [Codeword(cw, MinWidth)]
    ensures var f := Finish(mode, EncFrom(mode, e1, rest));
            Expanded(FlagOf(mode), Values(f)) == Success(Decoded([cw] + e1.current + rest, Widths(f)))
  {
    var f := Finish(mode, EncFrom(mode, e1, rest));
    Simulation(mode, e1, Initial(cw), rest);
    EmittedKept(mode, e1, rest);
    ExpandedFirst(mode, f, cw);
    assert Initial(cw).out + Initial(cw).val == [cw];
  }

  /** Two bytes or more: from the first emitted codeword on, the expander replays. */
  lemma ReplayLonger(mode: CodeBookMode, e: EncState, rest: seq<Byte>)
    requires Fresh(e) && rest != []
    ensures var f := Finish(mode, EncFrom(mode, e, rest));
            Expanded(FlagOf(mode), Values(f)) == Success(Decoded(e.current + rest, Widths(f)))
  {
    FirstEmit(mode, e, rest[0]);
    var cw := e.st[e.current];
    var e1 := EncStep(mode, e, rest[0]);
    var f := Finish(mode, EncFrom(mode, e1, rest[1..]));
    FinishUnfold(mode, e, rest);
    assert f == Finish(mode, EncFrom(mode, e, rest));
    ReplayAfterFirst(mode, e1, cw, rest[1..]);
    assert Expanded(FlagOf(mode), Values(f)) == Success(Decoded([cw] + e1.current + rest[1..], Widths(f)));
    SplitHead(e.current, rest);
  }

  /** Replay from the compressor's start, whatever the length of the rest of the input. */
  lemma ReplayFromStart(mode: CodeBookMode, e: EncState, rest: seq<Byte>)
    requires Fresh(e)
    ensures var f := Finish(mode, EncFrom(mode, e, rest));
            Expanded(FlagOf(mode), Values(f)) == Success(Decoded(e.current + rest, Widths(f)))
  {
    if rest == [] {
      assert EncFrom(mode, e, rest) == e;
      ReplaySingle(mode, e);
      assert e.current + rest == e.current;
    } else {
      ReplayLonger(mode, e, rest);
    }
  }

  lemma StartCovers(input: seq<Byte>)
    requires |input| > 0
    ensures Fresh(Start(input[0])) && Start(input[0]).current + input[1..] == input
  {
    assert input == [input[0]] + input[1..];
  }

  /** Round trip: for every non-empty input and either mode, the expander given the mode bit
      and the codeword values the compressor writes gives back the input, and reads every
      codeword, the end-of-stream one included, at exactly the width it was written at, so
      that a bit stream carrying them is parsed as it was written. */
  lemma RoundTrip(mode: CodeBookMode, input: seq<Byte>)
    requires |input| > 0
    ensures var out := Compressed(mode, input);
            Expanded(FlagOf(mode), Values(out)) == Success(Decoded(input, Widths(out)))
  {
    StartCovers(input);
    ReplayFromStart(mode, Start(input[0]), input[1..]);
  }
}
