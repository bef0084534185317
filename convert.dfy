/** The per-line converter of main.c:145-171: a single pass over the line
    with one bounded accumulator `total`, prepending a chain node whenever
    `total` exceeds 11 bits and once more, unconditionally, at the end. */
module YinConvert {
  import opened YinDigit
  import opened YinNumber

  /** The one way a line is refused: a character that is neither a newline
      nor accepted as a digit (main.c:151-155, which exits with -3). */
  datatype Error = NotADigit(c: char)

  datatype Result<T> = Ok(value: T) | Err(error: Error)

  /** `unsigned int` arithmetic is modulo 2^32. */
  const U32: nat := 0x1_0000_0000

  /** `buf[i] - '0'` */
  function CharValue(c: char): int
  {
    c as int - '0' as int
  }

  /** The guard of main.c:152: accepted unless `digit < 0 || digit > 10`. */
  predicate Accepted(c: char)
  {
    0 <= CharValue(c) <= 10
  }

  /** A character that stops the conversion. */
  predicate Rejected(c: char)
  {
    c != '\n' && !Accepted(c)
  }

  /** On an `unsigned int`, `& YIN_MASK` is the remainder by 2^11 and
      `>> YIN_LEN` the quotient, which is how the model writes them. */
  lemma MaskAndShift(x: bv32)
    ensures x & 2047 == x % 2048
    ensures x >> 11 == x / 2048
  {
  }

  /** Node values that each fit in one digit (at most YIN_MASK). */
  predicate Fits(vals: seq<nat>)
  {
    forall k :: 0 <= k < |vals| ==> vals[k] <= YinMask
  }

  /** The loop state: the accumulator and the node values prepended so far,
      head first. */
  datatype Acc = Acc(total: nat, chain: seq<nat>)

  /** One character of the loop at main.c:147-167.  A newline changes
      nothing; a rejected character is the error; otherwise `total` takes the
      character and, if it then exceeds the mask, one node is split off. */
  function Step(s: Acc, c: char): (r: Result<Acc>)
    ensures r.Err? <==> Rejected(c)
    ensures r.Err? ==> r.error == NotADigit(c)
    ensures r.Ok? && c == '\n' ==> r.value == s
  {
    if c == '\n' then Ok(s)
    else if !Accepted(c) then Err(NotADigit(c))
    else
      var t := ((s.total * 10) % U32 + CharValue(c)) % U32;
      if t > YinMask then Ok(Acc(t / YinBase, [t % YinBase] + s.chain))
      else Ok(Acc(t, s.chain))
  }

  /** From a total within the mask, `total * 10 + digit` fits in 32 bits. */
  lemma NoWrap(total: nat, digit: int)
    requires total <= YinMask && 0 <= digit <= 10
    ensures ((total * 10) % U32 + digit) % U32 == 10 * total + digit
  {
  }

  /** From a state within the mask, the 32-bit arithmetic never wraps, a
      node is split off exactly when `10 * total + digit` passes the mask,
      and then no information is lost: the new total shifted back plus the
      node is exactly `10 * total + digit`, and the new total is at most 10.
      The state stays within the mask either way. */
  lemma StepWithinMask(s: Acc, c: char)
    requires s.total <= YinMask
    ensures Step(s, c).Ok? ==> Step(s, c).value.total <= YinMask
    ensures Step(s, c).Ok? && c != '\n' ==>
              var r, t := Step(s, c).value, 10 * s.total + CharValue(c);
              if t > YinMask then
                |r.chain| == |s.chain| + 1 && r.chain[1..] == s.chain &&
                r.chain[0] <= YinMask && r.total <= 10 &&
                YinBase * r.total + r.chain[0] == t
              else
                r == Acc(t, s.chain)
  {
    if Accepted(c) && c != '\n' {
      NoWrap(s.total, CharValue(c));
    }
  }

  /** The loop over a whole line, from `total = 0` and an empty chain; the
      first rejected character ends it.  On success the accumulator is
      within the mask and every node value fits in a digit. */
  function Scan(line: seq<char>): (r: Result<Acc>)
    ensures r.Ok? ==> r.value.total <= YinMask
    ensures r.Ok? ==> Fits(r.value.chain)
  {
    if line == [] then Ok(Acc(0, []))
    else match Scan(line[..|line| - 1])
      case Err(e) => Err(e)
      case Ok(s) =>
        StepWithinMask(s, line[|line| - 1]);
        Step(s, line[|line| - 1])
  }

  /** A line's chain of node values, head first: the final flush
      `total & YIN_MASK` (which is `total` itself, as it is within the mask)
      in front of the nodes the loop split off. */
  function Convert(line: seq<char>): (r: Result<seq<nat>>)
    ensures r.Err? <==> Scan(line).Err?
    ensures r.Err? ==> r.error == Scan(line).error
    ensures r.Ok? ==> |r.value| >= 1 && Scan(line).Ok? &&
                      r.value[0] == Scan(line).value.total && r.value[1..] == Scan(line).value.chain
    ensures r.Ok? ==> Fits(r.value)
  {
    match Scan(line)
    case Err(e) => Err(e)
    case Ok(s) => Ok([s.total % YinBase] + s.chain)
  }

  /** The digits i2yin_digit makes of node values; it never returns NULL
      for them, and each digit decodes back to its value. */
  function Digits(vals: seq<nat>): (c: Chain)
    requires Fits(vals)
    ensures |c| == |vals| && ValidChain(c)
    ensures forall k :: 0 <= k < |c| ==> Decode(c[k]) == vals[k]
  {
    if vals == [] then [] else [Encode(vals[0]).value] + Digits(vals[1..])
  }

  /** Prepending a node value prepends its digit. */
  lemma DigitsCons(x: nat, vals: seq<nat>)
    requires x <= YinMask && Fits(vals)
    ensures Digits([x] + vals) == [Encode(x).value] + Digits(vals)
  {
    assert ([x] + vals)[1..] == vals;
  }

  /** What the program prints for one line. */
  function LineOutput(line: seq<char>): (r: Result<string>)
    ensures r.Err? <==> Convert(line).Err?
    ensures r.Err? ==> r.error == Convert(line).error
    ensures r.Ok? ==> |r.value| == 4 * |Convert(line).value|
  {
    match Convert(line)
    case Err(e) => Err(e)
    case Ok(vals) => Ok(NumberText(Digits(vals)))
  }

  /** Node k of a line's chain is printed at offset 4k as the syllable of
      its digit, followed by '.' when another node follows and by the
      newline after the last. */
  lemma LineOutputAt(line: seq<char>, k: nat)
    requires Convert(line).Ok? && k < |Convert(line).value|
    ensures LineOutput(line).value[4 * k .. 4 * k + 3] == Render(Encode(Convert(line).value[k]).value)
    ensures LineOutput(line).value[4 * k + 3] == if k + 1 < |Convert(line).value| then '.' else '\n'
  {
    var vals := Convert(line).value;
    var c := Digits(vals);
    NumberTextAt(c, k);
    DecodeEncode(c[k]);
    assert Encode(vals[k]).value == c[k];
  }

  /** Once a prefix has failed, the rest of the line is never looked at. */
  lemma {:induction false} ScanStopsAtError(line: seq<char>, i: nat)
    requires i <= |line| && Scan(line[..i]).Err?
    ensures Scan(line) == Scan(line[..i])
    decreases |line|
  {
    if i < |line| {
      var init := line[..|line| - 1];
      assert init[..i] == line[..i];
      ScanStopsAtError(init, i);
      assert Scan(line) == Scan(init);
    } else {
      assert line[..i] == line;
    }
  }

  /** A line is refused if and only if it holds a rejected character. */
  lemma {:induction false} ScanOkIff(line: seq<char>)
    ensures Scan(line).Ok? <==> forall k :: 0 <= k < |line| ==> !Rejected(line[k])
  {
    if line != [] {
      var init := line[..|line| - 1];
      ScanOkIff(init);
      assert forall k :: 0 <= k < |init| ==> init[k] == line[k];
    }
  }

  /** The error names the first rejected character. */
  lemma ScanErrorIsFirst(line: seq<char>, k: nat)
    requires k < |line| && Rejected(line[k])
    requires forall j :: 0 <= j < k ==> !Rejected(line[j])
    ensures Scan(line) == Err(NotADigit(line[k]))
  {
    var pre := line[..k];
    ScanOkIff(pre);
    assert line[..k + 1][..k] == pre;
    assert Scan(line[..k + 1]) == Err(NotADigit(line[k]));
    ScanStopsAtError(line, k + 1);
  }

  /** The characters of a line that reach the accumulator. */
  function DigitCount(line: seq<char>): (n: nat)
    ensures n <= |line|
  {
    if line == [] then 0
    else DigitCount(line[..|line| - 1]) + if line[|line| - 1] == '\n' then 0 else 1
  }

  /** How many characters the accumulator has taken, at least, since the
      last split: from at most 10 it needs three more to pass the mask. */
  function Level(total: nat): nat
  {
    if total <= 10 then 0 else if total <= 110 then 1 else if total <= 1110 then 2 else 3
  }

  lemma {:induction false} ScanLength(line: seq<char>)
    ensures Scan(line).Ok? ==>
              3 * |Scan(line).value.chain| + Level(Scan(line).value.total) <= DigitCount(line)
  {
    if line != [] {
      var init := line[..|line| - 1];
      ScanLength(init);
      if Scan(init).Ok? {
        StepWithinMask(Scan(init).value, line[|line| - 1]);
      }
    }
  }

  /** Every split needs three characters after the previous one (four for
      the first), so a line of N digits gives at most 1 + N / 3 nodes. */
  lemma ChainLengthBound(line: seq<char>)
    requires Convert(line).Ok?
    ensures 3 * (|Convert(line).value| - 1) <= DigitCount(line)
  {
    ScanLength(line);
  }

  /** Scan takes the characters left to right. */
  lemma ScanSnoc(line: seq<char>, c: char, before: Acc)
    requires Scan(line) == Ok(before)
    ensures Scan(line + [c]) == Step(before, c)
  {
    assert (line + [c])[..|line|] == line;
  }

  /** An empty line still gets the unconditional final node: digit 0, "bab". */
  lemma EmptyLine()
    ensures Convert("") == Ok([0]) && Convert("\n") == Ok([0])
  {
    assert Scan("") == Ok(Acc(0, []));
    assert Step(Acc(0, []), '\n') == Ok(Acc(0, []));
    ScanSnoc("", '\n', Acc(0, []));
    assert "" + ['\n'] == "\n";
    assert Convert("").value == [0];
    assert Convert("\n").value == [0];
  }

  /** A digit that keeps the total within the mask: no node is split off. */
  lemma StepNoSplit(s: Acc, c: char, t: nat)
    requires c != '\n' && Accepted(c) && s.total <= YinMask
    requires t == 10 * s.total + CharValue(c) <= YinMask
    ensures Step(s, c) == Ok(Acc(t, s.chain))
  {
    StepWithinMask(s, c);
  }

  /** A digit that takes the total past the mask: its low 11 bits become a
      node and the high bits stay. */
  lemma StepSplit(s: Acc, c: char, t: nat)
    requires c != '\n' && Accepted(c) && s.total <= YinMask
    requires t == 10 * s.total + CharValue(c) > YinMask
    ensures Step(s, c) == Ok(Acc(t / YinBase, [t % YinBase] + s.chain))
  {
    StepWithinMask(s, c);
  }

  lemma Zero()
    ensures Convert("0\n") == Ok([0])
  {
    assert Scan("") == Ok(Acc(0, []));
    StepNoSplit(Acc(0, []), '0', 0);
    ScanSnoc("", '0', Acc(0, []));
    assert "" + ['0'] == "0";
    ScanSnoc("0", '\n', Acc(0, []));
    assert "0" + ['\n'] == "0\n";
    assert Convert("0\n").value == [0];
  }

  lemma Prefix204()
    ensures Scan("204") == Ok(Acc(204, []))
  {
    assert Scan("") == Ok(Acc(0, []));
    StepNoSplit(Acc(0, []), '2', 2);
    ScanSnoc("", '2', Acc(0, []));
    assert "" + ['2'] == "2";
    StepNoSplit(Acc(2, []), '0', 20);
    ScanSnoc("2", '0', Acc(2, []));
    assert "2" + ['0'] == "20";
    StepNoSplit(Acc(20, []), '4', 204);
    ScanSnoc("20", '4', Acc(20, []));
    assert "20" + ['4'] == "204";
  }

  lemma Prefix12()
    ensures Scan("12") == Ok(Acc(12, []))
  {
    assert Scan("") == Ok(Acc(0, []));
    StepNoSplit(Acc(0, []), '1', 1);
    ScanSnoc("", '1', Acc(0, []));
    assert "" + ['1'] == "1";
    StepNoSplit(Acc(1, []), '2', 12);
    ScanSnoc("1", '2', Acc(1, []));
    assert "1" + ['2'] == "12";
  }

  lemma Prefix1234()
    ensures Scan("1234") == Ok(Acc(1234, []))
  {
    Prefix12();
    StepNoSplit(Acc(12, []), '3', 123);
    ScanSnoc("12", '3', Acc(12, []));
    assert "12" + ['3'] == "123";
    StepNoSplit(Acc(123, []), '4', 1234);
    ScanSnoc("123", '4', Acc(123, []));
    assert "123" + ['4'] == "1234";
  }

  /** The mask itself fits in the accumulator without a split. */
  lemma MaskBoundary()
    ensures Convert("2047\n") == Ok([2047])
  {
    Prefix204();
    StepNoSplit(Acc(204, []), '7', 2047);
    ScanSnoc("204", '7', Acc(204, []));
    assert "204" + ['7'] == "2047";
    ScanSnoc("2047", '\n', Acc(2047, []));
    assert "2047" + ['\n'] == "2047\n";
    assert Convert("2047\n").value == [2047];
  }

  /** One more than the mask is split across two nodes, head first. */
  lemma FirstSplit()
    ensures Convert("2048\n") == Ok([1, 0])
  {
    Prefix204();
    StepSplit(Acc(204, []), '8', 2048);
    assert [2048 % YinBase] + [] == [0];
    ScanSnoc("204", '8', Acc(204, []));
    assert "204" + ['8'] == "2048";
    ScanSnoc("2048", '\n', Acc(1, [0]));
    assert "2048" + ['\n'] == "2048\n";
    assert Convert("2048\n").value == [1, 0];
  }

  /** After a split only the retained high bits are multiplied by ten:
      "123456" gives the nodes 66 and 57 (135225 in base 2048). */
  lemma LaterDigitsSkipSplitBits()
    ensures Convert("123456\n") == Ok([66, 57])
  {
    Prefix1234();
    StepSplit(Acc(1234, []), '5', 12345);
    assert [12345 % YinBase] + [] == [57];
    ScanSnoc("1234", '5', Acc(1234, []));
    assert "1234" + ['5'] == "12345";
    StepNoSplit(Acc(6, [57]), '6', 66);
    ScanSnoc("12345", '6', Acc(6, [57]));
    assert "12345" + ['6'] == "123456";
    ScanSnoc("123456", '\n', Acc(66, [57]));
    assert "123456" + ['\n'] == "123456\n";
    assert Convert("123456\n").value == [66, 57];
  }

  lemma LetterRejected()
    ensures Convert("12a3\n") == Err(NotADigit('a'))
  {
    Prefix12();
    ScanSnoc("12", 'a', Acc(12, []));
    assert "12" + ['a'] == "12a";
    assert "12a3\n"[..3] == "12a";
    ScanStopsAtError("12a3\n", 3);
  }

  /** ':' passes the `digit > 10` guard with the value 10. */
  lemma ColonAccepted()
    ensures Accepted(':') && CharValue(':') == 10
    ensures Convert(":\n") == Ok([10])
  {
    assert Scan("") == Ok(Acc(0, []));
    StepNoSplit(Acc(0, []), ':', 10);
    ScanSnoc("", ':', Acc(0, []));
    assert "" + [':'] == ":";
    ScanSnoc(":", '\n', Acc(10, []));
    assert ":" + ['\n'] == ":\n";
    assert Convert(":\n").value == [10];
  }

  /** The digits of one and of two node values. */
  lemma OneDigit(x: nat)
    requires x <= YinMask
    ensures Digits([x]) == [Encode(x).value]
  {
    DigitsCons(x, []);
    assert [x] + [] == [x];
  }

  lemma TwoDigits(x: nat, y: nat)
    requires x <= YinMask && y <= YinMask
    ensures Digits([x, y]) == [Encode(x).value, Encode(y).value]
  {
    OneDigit(y);
    DigitsCons(x, [y]);
    assert [x] + [y] == [x, y];
  }

  // The digits and syllables of the printed lines below.

  lemma GlyphsZero()
    ensures Encode(0) == Some(Digit(0, 0, 0)) && Render(Digit(0, 0, 0)) == "bab"
  {
    assert Consonants[0] == 'b' && Vowels[0] == 'a';
  }

  lemma GlyphsOne()
    ensures Encode(1) == Some(Digit(0, 0, 1)) && Render(Digit(0, 0, 1)) == "bac"
  {
    assert Consonants[0] == 'b' && Vowels[0] == 'a' && Consonants[1] == 'c';
  }

  lemma GlyphsTen()
    ensures Encode(10) == Some(Digit(0, 0, 10)) && Render(Digit(0, 0, 10)) == "ban"
  {
    assert Consonants[0] == 'b' && Vowels[0] == 'a' && Consonants[10] == 'n';
  }

  lemma GlyphsBof()
    ensures Encode(66) == Some(Digit(0, 3, 3)) && Render(Digit(0, 3, 3)) == "bof"
  {
    assert Consonants[0] == 'b' && Vowels[3] == 'o' && Consonants[3] == 'f';
  }

  lemma GlyphsBit()
    ensures Encode(57) == Some(Digit(0, 2, 15)) && Render(Digit(0, 2, 15)) == "bit"
  {
    assert Consonants[0] == 'b' && Vowels[2] == 'i' && Consonants[15] == 't';
  }

  /** The printed lines for the cases above. */
  lemma PrintedEmptyLine()
    ensures LineOutput("\n") == Ok("bab\n")
  {
    EmptyLine();
    OneDigit(0);
    GlyphsZero();
    OneNodeText(Encode(0).value);
    assert "bab" + "\n" == "bab\n";
  }

  lemma FirstSplitText()
    ensures NumberText(Digits([1, 0])) == "bac.bab\n"
  {
    TwoDigits(1, 0);
    GlyphsOne();
    GlyphsZero();
    TwoNodeText(Encode(1).value, Encode(0).value);
    assert "bac" + "." + ("bab" + "\n") == "bac.bab\n";
  }

  lemma PrintedFirstSplit()
    ensures LineOutput("2048\n") == Ok("bac.bab\n")
  {
    FirstSplit();
    FirstSplitText();
  }

  lemma SplitBitsText()
    ensures NumberText(Digits([66, 57])) == "bof.bit\n"
  {
    TwoDigits(66, 57);
    GlyphsBof();
    GlyphsBit();
    TwoNodeText(Encode(66).value, Encode(57).value);
    assert "bof" + "." + ("bit" + "\n") == "bof.bit\n";
  }

  lemma PrintedSplitBits()
    ensures LineOutput("123456\n") == Ok("bof.bit\n")
  {
    LaterDigitsSkipSplitBits();
    SplitBitsText();
  }

  lemma PrintedColon()
    ensures LineOutput(":\n") == Ok("ban\n")
  {
    ColonAccepted();
    OneDigit(10);
    GlyphsTen();
    OneNodeText(Encode(10).value);
    assert "ban" + "\n" == "ban\n";
  }

  /** main.c:145-171: the converter loop with its bounded accumulator.  The
      chain it builds is the digits of Convert, and it fails with the same
      character Convert does. */
  method ConvertLine(line: seq<char>) returns (r: Result<Chain>)
    ensures r.Err? <==> Convert(line).Err?
    ensures r.Err? ==> r.error == Convert(line).error
    ensures r.Ok? ==> r.value == Digits(Convert(line).value)
  {
    var total: nat := 0;
    var yd: Chain := [];
    ghost var vals: seq<nat> := [];
    for i := 0 to |line|
      invariant Scan(line[..i]) == Ok(Acc(total, vals))
      invariant Fits(vals)
      invariant yd == Digits(vals)
    {
      ghost var before := Acc(total, vals);
      assert Scan(line[..i + 1]) == Step(before, line[i]) by {
        assert line[..i + 1][..i] == line[..i];
      }
      if line[i] == '\n' {
        continue;
      }
      var digit := CharValue(line[i]);
      if digit < 0 || digit > 10 {
        ScanStopsAtError(line, i + 1);
        return Err(NotADigit(line[i]));
      }
      NoWrap(total, digit);
      total := ((total * 10) % U32 + digit) % U32;
      // the total holds more than 11 bits: its low 11 bits become a node
      if total > YinMask {
        StepSplit(before, line[i], total);
        DigitsCons(total % YinBase, vals);
        yd := [Encode(total % YinBase).value] + yd;
        vals := [total % YinBase] + vals;
        total := total / YinBase;
      } else {
        StepNoSplit(before, line[i], total);
      }
    }
    assert line[..|line|] == line;
    DigitsCons(total % YinBase, vals);
    r := Ok([Encode(total % YinBase).value] + yd);
  }
}
