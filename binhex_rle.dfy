/**
 * The run-length stage of BinHexFile.ReadFrom. The byte 0x90 is the run
 * marker: 0x90 0x00 stands for a literal 0x90 and 0x90 n, for n >= 1,
 * repeats the last byte already produced until it appears n times in a row.
 */
module BinHexRle {
  import opened Wrappers
  import opened ByteListExtensions
  import opened BinHexErrors

  const RLEFlag: byte := 0x90

  /** n copies of x. */
  function Repeat(x: byte, n: nat): (r: seq<byte>)
    ensures |r| == n && forall i :: 0 <= i < n ==> r[i] == x
  {
    if n == 0 then [] else Repeat(x, n - 1) + [x]
  }

  /**
   * Expanding the rest c of the compressed bytes after `out` has been
   * produced. A marker as the last byte has no count to read; a repeat
   * with nothing produced yet has no byte to repeat.
   */
  function ExpandFrom(c: seq<byte>, out: seq<byte>): Result<seq<byte>, Error>
    decreases |c|
  {
    if c == [] then Success(out)
    else if c[0] != RLEFlag then ExpandFrom(c[1..], out + [c[0]])
    else if |c| == 1 then Failure(TruncatedRun)
    else if c[1] == 0 then ExpandFrom(c[2..], out + [RLEFlag])
    else if out == [] then Failure(MalformedRun)
    else ExpandFrom(c[2..], out + Repeat(out[|out| - 1], c[1] as int - 1))
  }

  function Expand(c: seq<byte>): Result<seq<byte>, Error> {
    ExpandFrom(c, [])
  }

  /**
   * The RLE loop of BinHexFile.ReadFrom. The index is bumped inside the body
   * to read the count, as `compressedBytes[++i]` does there.
   */
  method ExpandRle(compressedBytes: seq<byte>) returns (r: Result<seq<byte>, Error>)
    ensures r == Expand(compressedBytes)
  {
    var uncompressedBytes: seq<byte> := [];
    var i := 0;
    while i < |compressedBytes|
      invariant 0 <= i <= |compressedBytes|
      invariant Expand(compressedBytes) == ExpandFrom(compressedBytes[i..], uncompressedBytes)
      decreases |compressedBytes| - i
    {
      ghost var rest := compressedBytes[i..];
      if compressedBytes[i] == RLEFlag {
        i := i + 1;
        if i == |compressedBytes| {
          return Failure(TruncatedRun);
        }
        var repeatCount := compressedBytes[i];
        assert compressedBytes[i + 1..] == rest[2..];
        if repeatCount == 0 {
          // Not a run: a literal marker byte.
          uncompressedBytes := uncompressedBytes + [RLEFlag];
          i := i + 1;
          continue;
        } else {
          if uncompressedBytes == [] {
            return Failure(MalformedRun);
          }
          var lastByte := uncompressedBytes[|uncompressedBytes| - 1];
          ghost var before := uncompressedBytes;
          for j := 0 to repeatCount as int - 1
            invariant uncompressedBytes == before + Repeat(lastByte, j)
          {
            uncompressedBytes := uncompressedBytes + [lastByte];
          }
        }
      } else {
        assert compressedBytes[i + 1..] == rest[1..];
        uncompressedBytes := uncompressedBytes + [compressedBytes[i]];
      }
      i := i + 1;
    }
    assert compressedBytes[i..] == [];
    return Success(uncompressedBytes);
  }

  // ---------------------------------------------------------------------------
  // The rules of the stage
  // ---------------------------------------------------------------------------

  /** Bytes other than the marker are copied through one by one. */
  lemma {:induction false} ExpandPlain(p: seq<byte>, s: seq<byte>, out: seq<byte>)
    requires RLEFlag !in p
    ensures ExpandFrom(p + s, out) == ExpandFrom(s, out + p)
    decreases |p|
  {
    if p != [] {
      assert (p + s)[1..] == p[1..] + s;
      ExpandPlain(p[1..], s, out + [p[0]]);
      assert out + [p[0]] + p[1..] == out + p;
    } else {
      assert p + s == s && out + p == out;
    }
  }

  /** Input without the marker comes out unchanged. */
  lemma ExpandIdentity(c: seq<byte>)
    requires RLEFlag !in c
    ensures Expand(c) == Success(c)
  {
    ExpandPlain(c, [], []);
    assert c + [] == c && [] + c == c;
  }

  /** 0x90 0x00 is one literal 0x90. */
  lemma ExpandLiteralFlag(s: seq<byte>, out: seq<byte>)
    ensures ExpandFrom([RLEFlag, 0] + s, out) == ExpandFrom(s, out + [RLEFlag])
  {
    assert ([RLEFlag, 0] + s)[2..] == s;
  }

  /** x 0x90 n, for a plain x and n >= 1, is x exactly n times; so n = 1 adds nothing. */
  lemma ExpandRun(x: byte, n: byte, s: seq<byte>, out: seq<byte>)
    requires x != RLEFlag && n >= 1
    ensures ExpandFrom([x, RLEFlag, n] + s, out) == ExpandFrom(s, out + Repeat(x, n as int))
  {
    var c := [x, RLEFlag, n] + s;
    assert c[1..] == [RLEFlag, n] + s;
    assert ([RLEFlag, n] + s)[2..] == s;
    RepeatCons(x, n as int - 1);
    assert out + [x] + Repeat(x, n as int - 1) == out + Repeat(x, n as int);
  }

  lemma {:induction false} RepeatCons(x: byte, n: nat)
    ensures [x] + Repeat(x, n) == Repeat(x, n + 1)
    decreases n
  {
    if n > 0 {
      RepeatCons(x, n - 1);
      assert [x] + Repeat(x, n) == [x] + Repeat(x, n - 1) + [x];
    }
  }

  /**
   * A marker read where a byte is expected, at the very end of the
   * compressed bytes, fails: there is no count after it. Appending one to
   * bytes that expand completely is such a marker, whatever they end with.
   */
  lemma {:induction false} TrailingAfterComplete(p: seq<byte>, out: seq<byte>)
    requires ExpandFrom(p, out).Success?
    ensures ExpandFrom(p + [RLEFlag], out) == Failure(TruncatedRun)
    decreases |p|
  {
    var c := p + [RLEFlag];
    if p == [] {
      assert c == [RLEFlag];
    } else if p[0] != RLEFlag {
      assert c[1..] == p[1..] + [RLEFlag];
      TrailingAfterComplete(p[1..], out + [p[0]]);
    } else {
      assert c[1] == p[1] && c[2..] == p[2..] + [RLEFlag];
      if p[1] == 0 {
        TrailingAfterComplete(p[2..], out + [RLEFlag]);
      } else {
        TrailingAfterComplete(p[2..], out + Repeat(out[|out| - 1], p[1] as int - 1));
      }
    }
  }

  /** After compressed bytes that expand, one more marker as the last byte fails with TruncatedRun. */
  lemma ExpandTrailingFlag(p: seq<byte>)
    requires Expand(p).Success?
    ensures Expand(p + [RLEFlag]) == Failure(TruncatedRun)
  {
    TrailingAfterComplete(p, []);
  }

  /** A repeat before anything has been produced fails: there is no byte to repeat. */
  lemma ExpandLeadingRun(n: byte, s: seq<byte>)
    requires n >= 1
    ensures Expand([RLEFlag, n] + s) == Failure(MalformedRun)
  {
  }

  /** The stage fails only for a marker without a count, or a repeat with nothing to repeat. */
  lemma {:induction false} ExpandErrors(c: seq<byte>, out: seq<byte>)
    ensures ExpandFrom(c, out).Failure? ==> ExpandFrom(c, out).error in {TruncatedRun, MalformedRun}
    decreases |c|
  {
    if c != [] {
      if c[0] != RLEFlag {
        ExpandErrors(c[1..], out + [c[0]]);
      } else if |c| > 1 && c[1] == 0 {
        ExpandErrors(c[2..], out + [RLEFlag]);
      } else if |c| > 1 && out != [] {
        ExpandErrors(c[2..], out + Repeat(out[|out| - 1], c[1] as int - 1));
      }
    }
  }

  // ---------------------------------------------------------------------------
  // An encoder for the stage, and the round trip
  // ---------------------------------------------------------------------------

  /** A run of one byte value, between 1 and 255 long. */
  datatype Run = Run(value: byte, count: nat)

  predicate ValidRun(r: Run) {
    1 <= r.count <= 255
  }

  /** One byte as it appears in compressed data: the marker is escaped as 0x90 0x00. */
  function Literal(x: byte): seq<byte> {
    if x == RLEFlag then [RLEFlag, 0] else [x]
  }

  function EncodeRun(r: Run): seq<byte>
    requires ValidRun(r)
  {
    Literal(r.value) + (if r.count == 1 then [] else [RLEFlag, r.count as byte])
  }

  function EncodeRuns(runs: seq<Run>): seq<byte>
    requires forall k :: 0 <= k < |runs| ==> ValidRun(runs[k])
  {
    if runs == [] then [] else EncodeRun(runs[0]) + EncodeRuns(runs[1..])
  }

  /** The bytes a list of runs stands for. */
  function RunsBytes(runs: seq<Run>): seq<byte> {
    if runs == [] then [] else Repeat(runs[0].value, runs[0].count) + RunsBytes(runs[1..])
  }

  lemma ExpandEncodedRun(r: Run, s: seq<byte>, out: seq<byte>)
    requires ValidRun(r)
    ensures ExpandFrom(EncodeRun(r) + s, out) == ExpandFrom(s, out + Repeat(r.value, r.count))
  {
    var x := r.value;
    var tail := (if r.count == 1 then [] else [RLEFlag, r.count as byte]) + s;
    assert EncodeRun(r) + s == Literal(x) + tail;
    if x == RLEFlag {
      ExpandLiteralFlag(tail, out);
    } else {
      assert (Literal(x) + tail)[1..] == tail;
    }
    if r.count == 1 {
      assert tail == s;
      assert Repeat(x, 1) == [x];
    } else {
      assert tail[2..] == s;
      RepeatCons(x, r.count - 1);
      assert out + [x] + Repeat(x, r.count - 1) == out + Repeat(x, r.count);
    }
  }

  /** Expanding encoded runs gives back the bytes they stand for, and then goes on with what follows. */
  lemma {:induction false} ExpandEncodeRuns(runs: seq<Run>, s: seq<byte>, out: seq<byte>)
    requires forall k :: 0 <= k < |runs| ==> ValidRun(runs[k])
    ensures ExpandFrom(EncodeRuns(runs) + s, out) == ExpandFrom(s, out + RunsBytes(runs))
    decreases |runs|
  {
    if runs == [] {
      assert EncodeRuns(runs) + s == s && out + RunsBytes(runs) == out;
    } else {
      var r0 := runs[0];
      assert EncodeRuns(runs) + s == EncodeRun(r0) + (EncodeRuns(runs[1..]) + s);
      ExpandEncodedRun(r0, EncodeRuns(runs[1..]) + s, out);
      ExpandEncodeRuns(runs[1..], s, out + Repeat(r0.value, r0.count));
      assert out + Repeat(r0.value, r0.count) + RunsBytes(runs[1..]) == out + RunsBytes(runs);
    }
  }

  lemma RunLengthRoundTrip(runs: seq<Run>)
    requires forall k :: 0 <= k < |runs| ==> ValidRun(runs[k])
    ensures Expand(EncodeRuns(runs)) == Success(RunsBytes(runs))
  {
    ExpandEncodeRuns(runs, [], []);
    assert EncodeRuns(runs) + [] == EncodeRuns(runs) && [] + RunsBytes(runs) == RunsBytes(runs);
  }

  /** Every byte as a run of one: the marker is escaped, nothing is compressed. */
  function SingleRuns(b: seq<byte>): (runs: seq<Run>)
    ensures |runs| == |b| && forall k :: 0 <= k < |runs| ==> ValidRun(runs[k])
  {
    seq(|b|, i requires 0 <= i < |b| => Run(b[i], 1))
  }

  lemma {:induction false} SingleRunsBytes(b: seq<byte>)
    ensures RunsBytes(SingleRuns(b)) == b
    decreases |b|
  {
    if b != [] {
      assert SingleRuns(b)[1..] == SingleRuns(b[1..]);
      SingleRunsBytes(b[1..]);
      assert Repeat(b[0], 1) == [b[0]];
      assert [b[0]] + b[1..] == b;
    }
  }

  /** Escaped bytes followed by marker-free padding expand to the bytes followed by that padding. */
  lemma ExpandEscapedPadded(b: seq<byte>, pad: seq<byte>)
    requires RLEFlag !in pad
    ensures Expand(EncodeRuns(SingleRuns(b)) + pad) == Success(b + pad)
  {
    ExpandEncodeRuns(SingleRuns(b), pad, []);
    SingleRunsBytes(b);
    ExpandPlain(pad, [], b);
    assert pad + [] == pad && [] + b == b;
  }
}
