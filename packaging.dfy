/** The manifest and archiver step of the build (core/toolchain/package.go):
    `capLinesAt72Bytes`, the manifest text, and the `jar` invocation. */
module Packaging {

  import opened Utf8

  /** The JAR manifest line limit the splitter enforces, in bytes. */
  const MaxLineBytes: nat := 72

  /** All lines one after another. */
  function Concat(lines: seq<seq<byte>>): seq<byte>
    decreases |lines|
  {
    if lines == [] then [] else lines[0] + Concat(lines[1..])
  }

  /** The bytes the splitter emits for `input`: each well-formed rune as it is, each byte
      that does not start one as U+FFFD. */
  function Emitted(input: seq<byte>): seq<byte>
    decreases |input|
  {
    if input == [] then [] else RuneText(input) + Emitted(input[DecodeRune(input).size..])
  }

  /** The lines `capLinesAt72Bytes` still produces from the loop state: `input` is what is
      left, `cur` the line being built and `curBytes` the byte count the loop keeps for it
      (the sizes of the runes decoded, which is `|cur|` unless a byte was replaced). */
  function SplitFrom(input: seq<byte>, cur: seq<byte>, curBytes: nat): seq<seq<byte>>
    decreases |input|
  {
    if input == [] then (if curBytes > 0 then [cur] else [])
    else
      var d := DecodeRune(input);
      if curBytes + d.size > MaxLineBytes then [cur] + SplitFrom(input[d.size..], RuneText(input), d.size)
      else SplitFrom(input[d.size..], cur + RuneText(input), curBytes + d.size)
  }

  /** The result of `capLinesAt72Bytes(input)`. */
  function CapLines(input: seq<byte>): seq<seq<byte>> {
    SplitFrom(input, [], 0)
  }

  /** A list of lines that a manifest writer may emit for well-formed text: every line holds
      whole runes, is not empty and fits in 72 bytes, and a line is closed only when the
      first rune of the next one would not have fitted. */
  predicate GreedyLines(lines: seq<seq<byte>>) {
    (forall i :: 0 <= i < |lines| ==> 0 < |lines[i]| <= MaxLineBytes && ValidUtf8(lines[i]))
    && (forall i :: 0 <= i < |lines| - 1 ==> ClosedBeforeNext(lines, i))
  }

  /** Line `i` was closed because the first rune of line `i + 1` would not have fitted. */
  predicate ClosedBeforeNext(lines: seq<seq<byte>>, i: nat)
    requires i + 1 < |lines| && lines[i + 1] != []
  {
    |lines[i]| + DecodeRune(lines[i + 1]).size > MaxLineBytes
  }

  /** A loop state that can be reached: the line under construction is empty exactly when
      its byte count is 0, and never over the limit. */
  predicate Reachable(cur: seq<byte>, curBytes: nat) {
    (cur == [] <==> curBytes == 0) && curBytes <= MaxLineBytes
  }

  /** For well-formed input the emitted bytes are the input bytes. */
  lemma {:induction false} EmittedValid(input: seq<byte>)
    requires ValidUtf8(input)
    ensures Emitted(input) == input
    decreases |input|
  {
    if input != [] {
      var n := DecodeRune(input).size;
      EmittedValid(input[n..]);
      assert input == input[..n] + input[n..];
    }
  }

  /** Concatenating the lines gives back, in order, every byte emitted; nothing is added
      between lines. */
  lemma {:induction false} SplitFromConcat(input: seq<byte>, cur: seq<byte>, curBytes: nat)
    requires Reachable(cur, curBytes)
    ensures Concat(SplitFrom(input, cur, curBytes)) == cur + Emitted(input)
    decreases |input|
  {
    if input == [] {
      if curBytes > 0 {
        assert Concat([cur]) == cur + Concat([]);
      }
    } else {
      var d := DecodeRune(input);
      var rest := input[d.size..];
      var text := RuneText(input);
      SplitFromStep(input, cur, curBytes);
      assert Emitted(input) == text + Emitted(rest);
      if curBytes + d.size > MaxLineBytes {
        SplitFromConcat(rest, text, d.size);
        ConcatCons(cur, SplitFrom(rest, text, d.size));
      } else {
        SplitFromConcat(rest, cur + text, curBytes + d.size);
      }
    }
  }

  /** The concatenation of a line in front of others. */
  lemma ConcatCons(line: seq<byte>, lines: seq<seq<byte>>)
    ensures Concat([line] + lines) == line + Concat(lines)
  {
    assert ([line] + lines)[1..] == lines;
  }

  /** The first line produced from a state with a non-empty current line starts with it. */
  lemma {:induction false} FirstLineExtends(input: seq<byte>, cur: seq<byte>, curBytes: nat)
    requires Reachable(cur, curBytes) && cur != []
    ensures SplitFrom(input, cur, curBytes) != []
    ensures cur <= SplitFrom(input, cur, curBytes)[0]
    decreases |input|
  {
    if input != [] {
      var d := DecodeRune(input);
      if curBytes + d.size <= MaxLineBytes {
        FirstLineExtends(input[d.size..], cur + RuneText(input), curBytes + d.size);
      }
    }
  }

  /** On well-formed input, from a reachable state whose line holds whole runes and whose
      count is its length, the lines produced are greedy. */
  lemma {:induction false} SplitFromGreedy(input: seq<byte>, cur: seq<byte>, curBytes: nat)
    requires ValidUtf8(input) && ValidUtf8(cur)
    requires Reachable(cur, curBytes) && |cur| == curBytes
    ensures GreedyLines(SplitFrom(input, cur, curBytes))
    decreases |input|, 1
  {
    if input != [] {
      if curBytes + DecodeRune(input).size > MaxLineBytes {
        GreedyWhenClosing(input, cur, curBytes);
      } else {
        GreedyWhenExtending(input, cur, curBytes);
      }
    }
  }

  /** `SplitFromGreedy` when the next rune closes the line. */
  lemma {:induction false} GreedyWhenClosing(input: seq<byte>, cur: seq<byte>, curBytes: nat)
    requires ValidUtf8(input) && ValidUtf8(cur) && input != []
    requires Reachable(cur, curBytes) && |cur| == curBytes
    requires curBytes + DecodeRune(input).size > MaxLineBytes
    ensures GreedyLines(SplitFrom(input, cur, curBytes))
    decreases |input|, 0
  {
    var d := DecodeRune(input);
    FirstRuneValid(input);
    SplitFromClose(input, cur, curBytes);
    SplitFromGreedy(input[d.size..], input[..d.size], d.size);
    GreedyAfterClose(input, cur);
  }

  /** `SplitFromGreedy` when the next rune joins the line. */
  lemma {:induction false} GreedyWhenExtending(input: seq<byte>, cur: seq<byte>, curBytes: nat)
    requires ValidUtf8(input) && ValidUtf8(cur) && input != []
    requires Reachable(cur, curBytes) && |cur| == curBytes
    requires curBytes + DecodeRune(input).size <= MaxLineBytes
    ensures GreedyLines(SplitFrom(input, cur, curBytes))
    decreases |input|, 0
  {
    var d := DecodeRune(input);
    var r := input[..d.size];
    FirstRuneValid(input);
    SplitFromExtend(input, cur, curBytes);
    ValidAppend(cur, r);
    SplitFromGreedy(input[d.size..], cur + r, curBytes + d.size);
  }

  /** The first rune of well-formed text is well-formed on its own, and is what the
      splitter emits for it. */
  lemma FirstRuneValid(input: seq<byte>)
    requires ValidUtf8(input) && input != []
    ensures RuneText(input) == input[..DecodeRune(input).size]
    ensures ValidUtf8(input[..DecodeRune(input).size])
  {
    var r := input[..DecodeRune(input).size];
    DecodePrefix(input, []);
    assert r + [] == r;
    assert r[DecodeRune(input).size..] == [];
  }

  /** Closing a full line in front of greedy lines, where the next rune starts the next
      line, keeps them greedy. */
  lemma GreedyAfterClose(input: seq<byte>, cur: seq<byte>)
    requires ValidUtf8(input) && ValidUtf8(cur) && input != []
    requires Reachable(cur, |cur|) && |cur| + DecodeRune(input).size > MaxLineBytes
    requires var d := DecodeRune(input);
      GreedyLines(SplitFrom(input[d.size..], input[..d.size], d.size))
    ensures var d := DecodeRune(input);
      GreedyLines([cur] + SplitFrom(input[d.size..], input[..d.size], d.size))
  {
    var d := DecodeRune(input);
    NextLineStartsWithRune(input);
    GreedyCons(cur, SplitFrom(input[d.size..], input[..d.size], d.size));
  }

  /** The line opened by the first rune of well-formed text begins with that rune, so it
      decodes to a rune of the same size. */
  lemma NextLineStartsWithRune(input: seq<byte>)
    requires ValidUtf8(input) && input != []
    ensures var d := DecodeRune(input);
      var tail := SplitFrom(input[d.size..], input[..d.size], d.size);
      tail != [] && tail[0] != [] && DecodeRune(tail[0]).size == d.size
  {
    var d := DecodeRune(input);
    var r := input[..d.size];
    var rest := input[d.size..];
    FirstRuneValid(input);
    var tail := SplitFrom(rest, r, d.size);
    FirstLineExtends(rest, r, d.size);
    var first := tail[0];
    assert first[..d.size] == r;
    assert first == first[..d.size] + first[d.size..];
    DecodePrefix(input, first[d.size..]);
  }

  /** A full line of whole runes in front of greedy lines keeps them greedy when the
      first rune of the next line would not have fitted on it. */
  lemma GreedyCons(cur: seq<byte>, tail: seq<seq<byte>>)
    requires 0 < |cur| <= MaxLineBytes && ValidUtf8(cur)
    requires GreedyLines(tail) && tail != []
    requires |cur| + DecodeRune(tail[0]).size > MaxLineBytes
    ensures GreedyLines([cur] + tail)
  {
    var lines := [cur] + tail;
    assert lines[1..] == tail;
    forall i | 0 <= i < |lines| - 1
      ensures ClosedBeforeNext(lines, i)
    {
      if i == 0 {
        assert lines[0] == cur && lines[1] == tail[0];
      } else {
        assert lines[i] == tail[i - 1] && lines[i + 1] == tail[i];
        assert ClosedBeforeNext(tail, i - 1);
      }
    }
  }

  /** The properties the manifest relies on, for well-formed text: the lines give back the
      input exactly, hold whole runes, are non-empty, fit in 72 bytes and are greedy; empty
      input gives no line at all. */
  lemma CapLinesValid(input: seq<byte>)
    requires ValidUtf8(input)
    ensures Concat(CapLines(input)) == input
    ensures GreedyLines(CapLines(input))
    ensures CapLines(input) == [] <==> input == []
  {
    SplitFromConcat(input, [], 0);
    EmittedValid(input);
    SplitFromGreedy(input, [], 0);
  }

  /** For any input, even malformed, no line is empty and the lines concatenate to the
      emitted bytes. */
  lemma CapLinesAnyInput(input: seq<byte>)
    ensures Concat(CapLines(input)) == Emitted(input)
    ensures forall i :: 0 <= i < |CapLines(input)| ==> CapLines(input)[i] != []
  {
    SplitFromConcat(input, [], 0);
    NonEmptyLines(input, [], 0);
  }

  lemma {:induction false} NonEmptyLines(input: seq<byte>, cur: seq<byte>, curBytes: nat)
    requires Reachable(cur, curBytes)
    ensures forall i :: 0 <= i < |SplitFrom(input, cur, curBytes)| ==> SplitFrom(input, cur, curBytes)[i] != []
    decreases |input|
  {
    if input != [] {
      var d := DecodeRune(input);
      if curBytes + d.size > MaxLineBytes {
        NonEmptyLines(input[d.size..], RuneText(input), d.size);
        assert cur != [];
      } else {
        NonEmptyLines(input[d.size..], cur + RuneText(input), curBytes + d.size);
      }
    }
  }

  /** Input that fits in what is left of the current line stays on that line. */
  lemma {:induction false} FitsOneLine(input: seq<byte>, cur: seq<byte>, curBytes: nat)
    requires Reachable(cur, curBytes) && curBytes + |input| <= MaxLineBytes
    requires cur != [] || input != []
    ensures SplitFrom(input, cur, curBytes) == [cur + Emitted(input)]
    decreases |input|
  {
    if input == [] {
      assert cur + Emitted(input) == cur;
    } else {
      var d := DecodeRune(input);
      var r := RuneText(input);
      var rest := input[d.size..];
      SplitFromStep(input, cur, curBytes);
      FitsOneLine(rest, cur + r, curBytes + d.size);
      assert cur + r + Emitted(rest) == cur + Emitted(input) by {
        assert Emitted(input) == r + Emitted(rest);
      }
    }
  }

  /** Well-formed text of at most 72 bytes is a single line, unchanged. */
  lemma ShortTextOneLine(input: seq<byte>)
    requires ValidUtf8(input) && 0 < |input| <= MaxLineBytes
    ensures CapLines(input) == [input]
  {
    FitsOneLine(input, [], 0);
    EmittedValid(input);
    assert CapLines(input) == [[] + Emitted(input)];
    assert [] + input == input;
  }

  /** `k` bytes that cannot start a rune. */
  function Junk(k: nat): seq<byte>
    decreases k
  {
    if k == 0 then [] else [0xFF] + Junk(k - 1)
  }

  /** Malformed input escapes the 72-byte cap: the loop counts one byte for a byte it
      cannot decode but appends the three bytes of U+FFFD, so `k` such bytes (up to 72)
      land on a single line of `3 * k` bytes. */
  lemma {:induction false} JunkOverflows(k: nat, cur: seq<byte>, curBytes: nat)
    requires curBytes + k <= MaxLineBytes && Reachable(cur, curBytes) && (k > 0 || cur != [])
    ensures SplitFrom(Junk(k), cur, curBytes) == [cur + Repeat(Replacement, k)]
    decreases k
  {
    if k > 0 {
      assert DecodeRune(Junk(k)) == Decoded(false, 1);
      assert RuneText(Junk(k)) == Replacement;
      assert Junk(k)[1..] == Junk(k - 1);
      assert SplitFrom(Junk(k), cur, curBytes) == SplitFrom(Junk(k - 1), cur + Replacement, curBytes + 1);
      JunkOverflows(k - 1, cur + Replacement, curBytes + 1);
      RepeatFront(Replacement, k);
      assert cur + Replacement + Repeat(Replacement, k - 1) == cur + Repeat(Replacement, k);
    } else {
      assert cur + Repeat(Replacement, 0) == cur;
    }
  }

  function Repeat(s: seq<byte>, k: nat): (r: seq<byte>)
    ensures |r| == k * |s|
    decreases k
  {
    if k == 0 then [] else Repeat(s, k - 1) + s
  }

  lemma {:induction false} RepeatFront(s: seq<byte>, k: nat)
    requires k > 0
    ensures s + Repeat(s, k - 1) == Repeat(s, k)
    decreases k
  {
    if k > 1 {
      RepeatFront(s, k - 1);
    }
  }

  /** Twenty-five bytes 0xFF come out as one line of 75 bytes. */
  lemma MalformedLineTooLong()
    ensures |CapLines(Junk(25))| == 1 && |CapLines(Junk(25))[0]| == 75
  {
    JunkOverflows(25, [], 0);
  }

  /** One step of the splitter: the next rune either closes the current line and starts
      the next, or joins the current line. */
  lemma SplitFromStep(input: seq<byte>, cur: seq<byte>, curBytes: nat)
    requires input != []
    ensures var d := DecodeRune(input);
      curBytes + d.size > MaxLineBytes ==>
        SplitFrom(input, cur, curBytes) == [cur] + SplitFrom(input[d.size..], RuneText(input), d.size)
    ensures var d := DecodeRune(input);
      curBytes + d.size <= MaxLineBytes ==>
        SplitFrom(input, cur, curBytes) == SplitFrom(input[d.size..], cur + RuneText(input), curBytes + d.size)
  {
  }

  /** A rune that does not fit closes the current line. */
  lemma SplitFromClose(input: seq<byte>, cur: seq<byte>, curBytes: nat)
    requires input != [] && curBytes + DecodeRune(input).size > MaxLineBytes
    ensures SplitFrom(input, cur, curBytes) == [cur] + SplitFrom(input[DecodeRune(input).size..], RuneText(input), DecodeRune(input).size)
  {
  }

  /** A rune that fits is added to the current line. */
  lemma SplitFromExtend(input: seq<byte>, cur: seq<byte>, curBytes: nat)
    requires input != [] && curBytes + DecodeRune(input).size <= MaxLineBytes
    ensures SplitFrom(input, cur, curBytes) == SplitFrom(input[DecodeRune(input).size..], cur + RuneText(input), curBytes + DecodeRune(input).size)
  {
  }

  lemma AppendOne<T>(xs: seq<T>, x: T, ys: seq<T>)
    ensures xs + ([x] + ys) == (xs + [x]) + ys
  {
  }

  /** `capLinesAt72Bytes`: decode the next rune, close the current line when the rune would
      take its byte count past 72, append the rune's text, and keep the last line if its
      count is positive. */
  method CapLinesAt72Bytes(input0: seq<byte>) returns (lines: seq<seq<byte>>)
    ensures lines == CapLines(input0)
    ensures lines == [] <==> input0 == []
  {
    lines := [];
    var currentLine: seq<byte> := [];
    var currentLineBytes: nat := 0;
    var input := input0;
    while |input| > 0
      invariant Reachable(currentLine, currentLineBytes)
      invariant lines + SplitFrom(input, currentLine, currentLineBytes) == CapLines(input0)
      invariant lines == [] || currentLine != []
      invariant input == input0 || currentLineBytes > 0
      decreases |input|
    {
      var size := DecodeRune(input).size;
      var text := RuneText(input);
      var rest := input[size..];
      if currentLineBytes + size > MaxLineBytes {
        // close the line; the rune starts the next one
        SplitFromClose(input, currentLine, currentLineBytes);
        AppendOne(lines, currentLine, SplitFrom(rest, text, size));
        lines := lines + [currentLine];
        currentLine := text;
        currentLineBytes := size;
      } else {
        SplitFromExtend(input, currentLine, currentLineBytes);
        currentLine := currentLine + text;
        currentLineBytes := currentLineBytes + size;
      }
      input := rest;
    }
    if currentLineBytes > 0 {
      lines := lines + [currentLine];
    }
  }
}
