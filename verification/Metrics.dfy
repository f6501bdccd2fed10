/** `remove_zero_metrics` (src/api/metrics.rs): drops the lines of a metrics page that report zero. */
module Metrics {
  import opened Util

  const NEWLINE: byte := 10
  const SPACE: byte := 32
  const ZERO: byte := 48

  /** Length of the first line, its newline included: what `read_until` reads. */
  function LineLength(data: seq<byte>): (n: nat)
    ensures n <= |data|
    ensures n == 0 <==> data == []
    ensures forall i :: 0 <= i < n - 1 ==> data[i] != NEWLINE
    ensures n < |data| ==> data[n - 1] == NEWLINE
  {
    if data == [] then 0
    else if data[0] == NEWLINE then 1
    else 1 + LineLength(data[1..])
  }

  /** The data cut after each newline. */
  function Lines(data: seq<byte>): seq<seq<byte>>
    decreases |data|
  {
    if data == [] then [] else [data[..LineLength(data)]] + Lines(data[LineLength(data)..])
  }

  function Flatten(lines: seq<seq<byte>>): seq<byte> {
    if lines == [] then [] else lines[0] + Flatten(lines[1..])
  }

  predicate EndsWithZero(s: seq<byte>) {
    var n := |s|;
    || (n >= 3 && s[n - 3] == SPACE && s[n - 2] == ZERO && s[n - 1] == NEWLINE)
    || (n >= 2 && s[n - 2] == SPACE && s[n - 1] == ZERO)
  }

  function NonZero(lines: seq<seq<byte>>): seq<seq<byte>> {
    if lines == [] then []
    else (if EndsWithZero(lines[0]) then [] else [lines[0]]) + NonZero(lines[1..])
  }

  /** The specification: split into lines, drop those that end in zero, concatenate the rest. */
  function Kept(data: seq<byte>): seq<byte> {
    Flatten(NonZero(Lines(data)))
  }

  /** A line break lies between what precedes and what follows. */
  predicate AtLineBreak(s: seq<byte>) {
    s == [] || s[|s| - 1] == NEWLINE
  }

  /** A nonempty run of bytes with a newline at most at its end. */
  predicate IsLine(s: seq<byte>) {
    s != [] && forall i :: 0 <= i < |s| - 1 ==> s[i] != NEWLINE
  }

  /** The loop tests the end of everything kept so far; that sees no more than the last line. */
  lemma {:induction false} SuffixTestIsLocal(kept: seq<byte>, line: seq<byte>)
    requires AtLineBreak(kept) && IsLine(line)
    ensures EndsWithZero(kept + line) <==> EndsWithZero(line)
  {
  }

  /** One turn of the loop on `kept` and a nonempty `rest`. */
  lemma {:induction false} OneTurn(kept: seq<byte>, rest: seq<byte>)
    requires AtLineBreak(kept) && rest != []
    ensures var n := LineLength(rest);
            var all := kept + rest[..n];
            && all[..|all| - n] == kept
            && (rest[n..] != [] ==> AtLineBreak(all))
            && kept + Kept(rest) == (if EndsWithZero(all) then kept else all) + Kept(rest[n..])
  {
    var n := LineLength(rest);
    CutFirstLine(rest);
    KeptStep(rest[..n], rest[n..]);
    SuffixTestIsLocal(kept, rest[..n]);
    Regroup(kept, if EndsWithZero(rest[..n]) then [] else rest[..n], Kept(rest[n..]));
    assert (kept + rest[..n])[..|kept|] == kept && kept + [] == kept;
  }

  method RemoveZeroMetrics(data: seq<byte>) returns (res: seq<byte>)
    ensures res == Kept(data)
  {
    res := [];
    var rest := data;
    while true
      invariant rest != [] ==> AtLineBreak(res)
      invariant Kept(data) == res + Kept(rest)
      decreases |rest|
    {
      var len := LineLength(rest);
      if len == 0 { return; }
      OneTurn(res, rest);
      res, rest := res + rest[..len], rest[len..];
      if EndsWithZero(res) { res := res[..|res| - len]; }
    }
  }

  lemma {:induction false} FlattenCons(line: seq<byte>, lines: seq<seq<byte>>)
    ensures Flatten([line] + lines) == line + Flatten(lines)
  {
  }

  lemma {:induction false} NonZeroCons(line: seq<byte>, lines: seq<seq<byte>>)
    ensures NonZero([line] + lines) == (if EndsWithZero(line) then [] else [line]) + NonZero(lines)
  {
  }

  lemma {:induction false} KeptStep(line: seq<byte>, rest: seq<byte>)
    requires Lines(line + rest) == [line] + Lines(rest)
    ensures Kept(line + rest) == (if EndsWithZero(line) then [] else line) + Kept(rest)
  {
    NonZeroCons(line, Lines(rest));
    var tail := NonZero(Lines(rest));
    if EndsWithZero(line) { assert [] + tail == tail; } else { FlattenCons(line, tail); }
  }

  lemma {:induction false} Regroup(a: seq<byte>, b: seq<byte>, c: seq<byte>)
    ensures a + (b + c) == a + b + c
  {
  }

  lemma {:induction false} CutFirstLine(data: seq<byte>)
    requires data != []
    ensures var n := LineLength(data);
            data == data[..n] + data[n..] && IsLine(data[..n]) && (AtLineBreak(data[..n]) || data[n..] == [])
            && Lines(data) == [data[..n]] + Lines(data[n..])
  {
  }

  /** Each piece is a line, and every piece but the last ends with its newline. */
  predicate AreLines(lines: seq<seq<byte>>) {
    && (forall i :: 0 <= i < |lines| ==> IsLine(lines[i]))
    && (forall i :: 0 <= i < |lines| - 1 ==> AtLineBreak(lines[i]))
  }

  lemma {:induction false} PrependLine(line: seq<byte>, lines: seq<seq<byte>>)
    requires AreLines(lines) && IsLine(line) && (AtLineBreak(line) || lines == [])
    ensures AreLines([line] + lines)
  {
    var all := [line] + lines;
    assert forall i :: 1 <= i < |all| ==> all[i] == lines[i - 1];
  }

  /** `Lines` cuts without loss, at the newlines and nowhere else. */
  lemma {:induction false} LinesPartition(data: seq<byte>)
    ensures Flatten(Lines(data)) == data && AreLines(Lines(data))
    decreases |data|
  {
    if data != [] {
      var line, rest := data[..LineLength(data)], data[LineLength(data)..];
      CutFirstLine(data);
      LinesPartition(rest);
      FlattenCons(line, Lines(rest));
      PrependLine(line, Lines(rest));
    }
  }

  lemma {:induction false} LinesOfLinePlus(line: seq<byte>, rest: seq<byte>)
    requires IsLine(line) && (AtLineBreak(line) || rest == [])
    ensures Lines(line + rest) == [line] + Lines(rest)
  {
    var all := line + rest;
    var n := LineLength(all);
    assert all[|line| - 1] == line[|line| - 1];
    assert forall i :: 0 <= i < |line| ==> all[i] == line[i];
    assert n == |line|;
    assert all[..n] == line && all[n..] == rest;
  }

  lemma {:induction false} KeptOfLinePlus(line: seq<byte>, rest: seq<byte>)
    requires IsLine(line) && (AtLineBreak(line) || rest == [])
    ensures Kept(line + rest) == (if EndsWithZero(line) then [] else line) + Kept(rest)
  {
    LinesOfLinePlus(line, rest);
    KeptStep(line, rest);
  }

  /** At a line boundary the filter works on each side alone. */
  lemma {:induction false} KeptDistributes(a: seq<byte>, b: seq<byte>)
    requires AtLineBreak(a)
    ensures Kept(a + b) == Kept(a) + Kept(b)
    decreases |a|
  {
    if a == [] {
      assert a + b == b && Kept(a) == [] && [] + Kept(b) == Kept(b);
    } else {
      var line, rest := a[..LineLength(a)], a[LineLength(a)..];
      CutFirstLine(a);
      RestAtLineBreak(a);
      KeptDistributes(rest, b);
      KeptOfLinePlus(line, rest);
      KeptOfLinePlus(line, rest + b);
      Regroup(line, rest, b);
      Regroup(if EndsWithZero(line) then [] else line, Kept(rest), Kept(b));
    }
  }

  lemma {:induction false} RestAtLineBreak(a: seq<byte>)
    requires AtLineBreak(a) && a != []
    ensures AtLineBreak(a[..LineLength(a)]) && AtLineBreak(a[LineLength(a)..])
  {
  }

  /** In bytes: a line that ends in " 0" before its newline goes. */
  lemma {:induction false} ZeroLineInBytes(x: seq<byte>, rest: seq<byte>)
    requires 10 !in x
    ensures Kept(x + [32, 48, 10] + rest) == Kept(rest)
  {
    var line := x + [32, 48, 10];
    assert IsLine(line) by { assert forall i :: 0 <= i < |x| ==> x[i] in x && line[i] == x[i]; }
    KeptOfLinePlus(line, rest);
    assert [] + Kept(rest) == Kept(rest);
  }

  /** A line with any other ending stays. */
  lemma {:induction false} OtherLineInBytes(x: seq<byte>, rest: seq<byte>)
    requires 10 !in x && !(|x| >= 2 && x[|x| - 2] == 32 && x[|x| - 1] == 48)
    ensures Kept(x + [10] + rest) == x + [10] + Kept(rest)
  {
    var line := x + [10];
    assert IsLine(line) by { assert forall i :: 0 <= i < |x| ==> x[i] in x && line[i] == x[i]; }
    assert |x| >= 2 ==> line[|line| - 3] == x[|x| - 2] && line[|line| - 2] == x[|x| - 1];
    KeptOfLinePlus(line, rest);
  }

  /** The same for a last line without a newline. */
  lemma {:induction false} LastLineInBytes(x: seq<byte>)
    requires 10 !in x
    ensures Kept(x) == if |x| >= 2 && x[|x| - 2] == 32 && x[|x| - 1] == 48 then [] else x
  {
    if x != [] {
      assert forall i :: 0 <= i < |x| ==> x[i] in x;
      KeptOfLinePlus(x, []);
      assert x + [] == x;
    }
  }

  /** The lines of the result are the nonzero lines of the data, in order. */
  lemma {:induction false} LinesOfKept(data: seq<byte>)
    ensures Lines(Kept(data)) == NonZero(Lines(data))
    decreases |data|
  {
    if data != [] {
      var n := LineLength(data);
      var line, rest := data[..n], data[n..];
      LinesOfKept(rest);
      CutFirstLine(data);
      KeptStep(line, rest);
      NonZeroCons(line, Lines(rest));
      if EndsWithZero(line) {
        assert [] + Kept(rest) == Kept(rest);
      } else {
        LinesOfLinePlus(line, Kept(rest));
      }
    }
  }

  lemma {:induction false} NonZeroTwice(lines: seq<seq<byte>>)
    ensures NonZero(NonZero(lines)) == NonZero(lines)
    ensures forall i :: 0 <= i < |NonZero(lines)| ==> !EndsWithZero(NonZero(lines)[i])
  {
    if lines != [] {
      NonZeroTwice(lines[1..]);
      var tail := NonZero(lines[1..]);
      if EndsWithZero(lines[0]) { assert NonZero(lines) == tail; } else { NonZeroCons(lines[0], tail); }
    }
  }

  /** No zero line survives, so filtering again changes nothing. */
  lemma {:induction false} KeptIsIdempotent(data: seq<byte>)
    ensures Kept(Kept(data)) == Kept(data)
    ensures forall i :: 0 <= i < |Lines(Kept(data))| ==> !EndsWithZero(Lines(Kept(data))[i])
  {
    LinesOfKept(data);
    NonZeroTwice(Lines(data));
  }
}
