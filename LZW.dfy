/** The compressor and the expander as the step-by-step procedures they are: the codeword
    width W and the capacity L are the state they share and update in place, the
    expander's codebook is an array indexed by code that is replaced by a bigger copy when
    the width grows. Each procedure is proved to compute a function of Encoder or Decoder:
    Compress computes Compressed, Absorb EncStep, Flush Finish, Expand Expanded,
    MakeRoom Widen, Resolve Lookup and Enter AddIfRoom. */
module LZW {
  import opened Codebook
  import opened Encoder
  import opened Decoder

  /** The encoder's seeded codebook, built one single byte at a time. */
  method SeedEncoderCodebook() returns (st: map<seq<Byte>, int>)
    ensures st == SeedMap()
  {
    st := map[];
    var i := 0;
    while i < R
      invariant 0 <= i <= R
      invariant forall b: Byte :: [b] in st <==> b < i
      invariant forall s :: s in st ==> |s| == 1 && st[s] == s[0]
    {
      st := st[[i as Byte] := i];
      i := i + 1;
    }
    SeedMapUnique(st);
  }

  /** Fills codes 0..255 with the single bytes and code 256 with the empty string; returns
      the next free code. */
  method SeedDecoderCodebook(st: array<seq<Byte>>) returns (i: int)
    requires st.Length >= FirstFree
    modifies st
    ensures i == FirstFree && st[..i] == SeedTable()
    ensures st[i..] == old(st[i..])
  {
    i := 0;
    while i < R
      invariant 0 <= i <= R
      invariant forall c :: 0 <= c < i ==> st[c] == [c as Byte]
      invariant st[FirstFree..] == old(st[FirstFree..])
    {
      st[i] := [i as Byte];
      i := i + 1;
    }
    st[i] := [];
    i := i + 1;
    assert forall c :: 0 <= c < i ==> st[..i][c] == SeedTable()[c];
  }

  /** A copy of `arr` in an array twice as long; the new slots hold the empty string,
      standing for an unassigned code. */
  method UpsizeArr(arr: array<seq<Byte>>) returns (tmp: array<seq<Byte>>)
    ensures fresh(tmp)
    ensures tmp.Length == 2 * arr.Length
    ensures tmp[..arr.Length] == arr[..]
    ensures forall k :: arr.Length <= k < tmp.Length ==> tmp[k] == []
  {
    tmp := new seq<Byte>[arr.Length * 2](_ => []);
    var i := 0;
    while i < arr.Length
      invariant 0 <= i <= arr.Length
      invariant forall k :: 0 <= k < i ==> tmp[k] == arr[k]
      invariant forall k :: arr.Length <= k < tmp.Length ==> tmp[k] == []
    {
      tmp[i] := arr[i];
      i := i + 1;
    }
  }

  /** The state shared by compression and expansion: the codeword width `W` and the
      number of codes that fit in it, `L`. */
  class Codec {
    var W: int
    var L: int

    /** The width and capacity in force: `L` is always 2 to the power `W`. */
    predicate Valid()
      reads this
    {
      MinWidth <= W <= MaxWidth && L == Pow2(W)
    }

    constructor ()
      ensures W == MinWidth && L == 512 && Valid()
    {
      W := MinWidth;
      L := 512;
      Pow2Bounds(MinWidth);
    }

    /** Compresses a non-empty input: returns the mode bit and the codewords in the order
        they are written. End-of-stream is written at the width the expander will read it
        at (see EofWidth). */
    method Compress(mode: CodeBookMode, input: seq<Byte>) returns (flag: bool, out: seq<Codeword>)
      requires |input| > 0
      requires W == MinWidth && L == 512
      modifies this
      ensures flag == FlagOf(mode)
      ensures out == Compressed(mode, input)
      ensures Valid() && W == EofWidth(mode, EncFrom(mode, Start(input[0]), input[1..]))
    {
      Pow2Bounds(MinWidth);
      var st := SeedEncoderCodebook();
      ghost var tbl := SeedTable();
      var code := FirstFree;
      flag := mode == Reset;
      var current := [input[0]];
      out := [];
      ghost var es := Start(input[0]);
      var k := 1;
      while k < |input|
        invariant 1 <= k <= |input|
        invariant Valid() && code == |tbl|
        invariant es == EncFrom(mode, Start(input[0]), input[1..k])
        invariant es == EncState(st, tbl, W, current, out)
      {
        EncFromSnoc(mode, Start(input[0]), input[1..k], input[k]);
        SliceSnoc(input, 1, k);
        st, tbl, code, current, out := Absorb(mode, es, st, code, current, out, input[k]);
        es := EncStep(mode, es, input[k]);
        k := k + 1;
      }
      SliceToEnd(input, 1);
      out := Flush(mode, es, st, code, current, out);
    }

    /** After the last input byte: writes the code of the pending match, then end-of-stream
        at the width the expander's check before its next read gives. */
    method Flush(mode: CodeBookMode, ghost e: EncState, st: map<seq<Byte>, int>, code: int,
                 current: seq<Byte>, out: seq<Codeword>)
      returns (out': seq<Codeword>)
      requires Valid() && EncValid(e) && e == EncState(st, e.tbl, W, current, out) && code == |e.tbl|
      modifies this
      ensures out' == Finish(mode, e)
      ensures Valid() && W == EofWidth(mode, e)
    {
      var last := Codeword(st[current], W);
      if W < MaxWidth && code >= L {
        assert Pow2(W + 1) == 2 * Pow2(W);
        W := W + 1;
        L := L * 2;
      } else if W == MaxWidth && code >= L && mode == Reset {
        Pow2Bounds(MinWidth);
        W := MinWidth;
        L := 512;
      }
      SnocTwice(out, last, Codeword(EOF, W));
      out' := out + [last] + [Codeword(EOF, W)];
    }

    /** One pass of the compressor's loop: reads `next` and, unless the pending match
        followed by `next` is in the codebook, writes the match's code and enters the
        longer string, widening or resetting the codebook when it is full. `e` is the
        compressor's state before the pass; the result is its state after. */
    method Absorb(mode: CodeBookMode, ghost e: EncState, st: map<seq<Byte>, int>, code: int,
                  current: seq<Byte>, out: seq<Codeword>, next: Byte)
      returns (st': map<seq<Byte>, int>, ghost tbl': seq<seq<Byte>>, code': int,
               current': seq<Byte>, out': seq<Codeword>)
      requires Valid() && EncValid(e) && e == EncState(st, e.tbl, W, current, out) && code == |e.tbl|
      modifies this
      ensures Valid() && code' == |tbl'|
      ensures EncState(st', tbl', W, current', out') == EncStep(mode, e, next)
    {
      st', tbl', code', current', out' := st, e.tbl, code, current, out;
      var ext := current + [next];
      if ext !in st {
        out' := out + [Codeword(st[current], W)];
        if code < L {
          st' := st[ext := code];
          tbl' := e.tbl + [ext];
          code' := code + 1;
        } else if W < MaxWidth {
          assert Pow2(W + 1) == 2 * Pow2(W);
          W := W + 1;
          L := L * 2;
          st' := st[ext := code];
          tbl' := e.tbl + [ext];
          code' := code + 1;
        } else if W == MaxWidth && mode == Reset {
          Pow2Bounds(MinWidth);
          st' := SeedEncoderCodebook();
          tbl' := SeedTable();
          W := MinWidth;
          L := 512;
          code' := FirstFree;
          st' := st'[ext := code'];
          tbl' := tbl' + [ext];
          code' := code' + 1;
        }
        current' := [next];
      } else {
        current' := ext;
      }
    }

    /** The check the expander makes before every read: a full codebook below the maximum
        width moves to an array twice as long and gains one bit of width; a full codebook at
        the maximum width in RESET mode is replaced by a freshly seeded one. Returns the
        codebook array and its next free code. */
    method MakeRoom(mode: CodeBookMode, st: array<seq<Byte>>, i: int)
      returns (st': array<seq<Byte>>, i': int)
      requires Valid() && FirstFree <= i <= L <= st.Length
      modifies this
      ensures Valid() && FirstFree <= i' <= L <= st'.Length
      ensures st' == st || fresh(st')
      ensures (st'[..i'], W) == Widen(mode, st[..i], old(W))
    {
      Pow2Bounds(W);
      st', i' := st, i;
      if W < MaxWidth && i >= L {
        assert Pow2(W + 1) == 2 * Pow2(W);
        W := W + 1;
        L := L * 2;
        st' := UpsizeArr(st);
        assert st'[..i] == st'[..st.Length][..i];
      } else if W == MaxWidth && i >= L && mode == Reset {
        st' := new seq<Byte>[L](_ => []);
        i' := SeedDecoderCodebook(st');
        W := MinWidth;
        L := 512;
      }
    }

    /** The string codeword `codeword` stands for, with codebook `st[..i]` after the
        string `val`; a codeword that names nothing is reported. */
    method Resolve(ghost d: DecState, st: array<seq<Byte>>, i: int, val: seq<Byte>, codeword: nat)
      returns (r: Result<seq<Byte>>)
      requires Valid() && FirstFree <= i <= L <= st.Length && codeword != EOF
      requires DecValid(d) && d.tbl == st[..i] && d.W == W && d.val == val
      ensures r == Lookup(d.tbl, d.W, d.val, codeword)
    {
      if codeword >= L || codeword > i || (codeword == i && val == []) {
        return Failure(InvalidCode(codeword));
      }
      var s := st[codeword];
      if i == codeword {
        s := val + [val[0]];
      }
      return Success(s);
    }

    /** Enters `x` under the next free code `i` if that code still fits the width. */
    method Enter(st: array<seq<Byte>>, i: int, x: seq<Byte>) returns (i': int)
      requires Valid() && FirstFree <= i <= L <= st.Length
      modifies st
      ensures FirstFree <= i' <= L
      ensures st[..i'] == AddIfRoom(old(st[..i]), W, x)
      ensures st[i'..] == old(st[i'..])
    {
      i' := i;
      if i < L {
        st[i] := x;
        i' := i + 1;
      }
    }

    /** Expands the codeword values `codes`, read in order, after the mode bit `flag`.
        Returns the bytes written and the width each codeword was read at, or the reason
        the stream cannot be expanded. */
    method Expand(flag: bool, codes: seq<nat>) returns (r: Result<Decoded>)
      requires W == MinWidth && L == 512
      modifies this
      ensures r == Expanded(flag, codes)
      ensures Valid() && (r.Success? ==> W == r.value.widths[|r.value.widths| - 1])
    {
      Pow2Bounds(MinWidth);
      var st := new seq<Byte>[L](_ => []);
      var i := SeedDecoderCodebook(st);
      var mode := if flag then Reset else None;
      if |codes| == 0 {
        return Failure(Truncated);
      }
      var codeword := codes[0];
      if codeword > EOF {
        return Failure(InvalidCode(codeword));
      }
      var val := st[codeword];
      var out: seq<Byte> := [];
      var widths := [W];
      ghost var ds := Initial(codeword);
      var pos := 1;
      while true
        invariant 1 <= pos <= |codes|
        invariant Valid() && FirstFree <= i <= L <= st.Length && fresh(st)
        invariant ds == DecState(st[..i], W, val, out, widths) && DecValid(ds)
        invariant Expanded(flag, codes) == DecodeFrom(mode, ds, codes[pos..])
        decreases |codes| - pos
      {
        ghost var d := ds;
        st, i := MakeRoom(mode, st, i);
        DecodeAt(mode, d, codes, pos);
        out := out + val;
        if pos == |codes| {
          return Failure(Truncated);
        }
        codeword := codes[pos];
        pos := pos + 1;
        widths := widths + [W];
        if codeword == EOF {
          break;
        }
        ghost var dw := d.(tbl := st[..i], W := W);
        WidenValid(mode, d);
        var s := Resolve(dw, st, i, val, codeword);
        if s.Failure? {
          return Failure(s.error);
        }
        i := Enter(st, i, val + [s.value[0]]);
        val := s.value;
        ds := Advance(mode, d, val);
      }
      return Success(Decoded(out, widths));
    }
  }
}
