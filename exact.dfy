/** The conversion main.c evidently intends: the decimal number on a line,
    written in base 2048 with the most significant digit at the head, and
    only '0' ..= '9' accepted.  It keeps the whole numeral instead of one
    accumulator: each decimal digit multiplies every node by ten, carrying
    from the tail towards the head. */
module YinExact {
  import opened YinDigit
  import opened YinConvert

  /** The characters the message "is not a digit" speaks of. */
  predicate IsDecimalDigit(c: char)
  {
    '0' <= c <= '9'
  }

  /** The number a chain of node values stands for, head most significant. */
  function Value(vals: seq<nat>): nat
  {
    if vals == [] then 0 else Value(vals[..|vals| - 1]) * YinBase + vals[|vals| - 1]
  }

  /** The number written by the decimal digits of a line. */
  function DecimalValue(line: seq<char>): nat
  {
    if line == [] then 0
    else
      var init, c := line[..|line| - 1], line[|line| - 1];
      if IsDecimalDigit(c) then DecimalValue(init) * 10 + CharValue(c) else DecimalValue(init)
  }

  lemma ValueSnoc(vals: seq<nat>, x: nat)
    ensures Value(vals + [x]) == Value(vals) * YinBase + x
  {
    assert (vals + [x])[..|vals|] == vals;
  }

  /** The numeral times ten plus a carry below ten; the result stays a
      numeral without a leading zero node when the input was one.  Its
      value is given by MulAddValue. */
  function MulAdd(vals: seq<nat>, carry: nat): (r: seq<nat>)
    requires Fits(vals) && carry < 10
    ensures Fits(r)
    ensures (vals == [] || vals[0] != 0) ==> (r == [] || r[0] != 0)
    decreases |vals|
  {
    if vals == [] then (if carry == 0 then [] else [carry])
    else
      var init, last := vals[..|vals| - 1], vals[|vals| - 1];
      var t := last * 10 + carry;
      assert t / YinBase < 10;
      var rest := MulAdd(init, t / YinBase);
      assert init != [] ==> init[0] == vals[0];
      rest + [t % YinBase]
  }

  /** Multiplying the numeral by ten and adding the carry loses nothing. */
  lemma {:induction false} MulAddValue(vals: seq<nat>, carry: nat)
    requires Fits(vals) && carry < 10
    ensures Value(MulAdd(vals, carry)) == Value(vals) * 10 + carry
    decreases |vals|
  {
    if vals != [] {
      var init, last := vals[..|vals| - 1], vals[|vals| - 1];
      var t := last * 10 + carry;
      assert t / YinBase < 10;
      MulAddValue(init, t / YinBase);
      var rest := MulAdd(init, t / YinBase);
      MulAddLast(vals, carry);
      ValueSnoc(rest, t % YinBase);
      CarryStep(Value(init), last, carry, Value(rest));
    }
  }

  /** The last limb of the product keeps the low part of ten times the
      last node, and the rest carries into the higher limbs. */
  lemma MulAddLast(vals: seq<nat>, carry: nat)
    requires Fits(vals) && carry < 10 && vals != []
    ensures var t := vals[|vals| - 1] * 10 + carry;
            t / YinBase < 10 &&
            MulAdd(vals, carry) == MulAdd(vals[..|vals| - 1], t / YinBase) + [t % YinBase]
  { }

  /** One limb of the multiplication: the carry into the higher limbs and
      the remainder kept in this one lose nothing. */
  lemma CarryStep(high: nat, last: nat, carry: nat, rest: nat)
    requires last <= YinMask && carry < 10
    requires rest == high * 10 + (last * 10 + carry) / YinBase
    ensures rest * YinBase + (last * 10 + carry) % YinBase == (high * YinBase + last) * 10 + carry
  {
    var t := last * 10 + carry;
    assert t == YinBase * (t / YinBase) + t % YinBase;
  }

  /** The corrected loop: newlines skipped, anything but '0' ..= '9'
      refused, and every digit folded into the whole numeral. */
  function ExactScan(line: seq<char>): (r: Result<seq<nat>>)
    ensures r.Ok? ==> Fits(r.value) && Value(r.value) == DecimalValue(line)
    ensures r.Ok? ==> r.value == [] || r.value[0] != 0
  {
    if line == [] then Ok([])
    else
      var init, c := line[..|line| - 1], line[|line| - 1];
      match ExactScan(init)
      case Err(e) => Err(e)
      case Ok(vals) =>
        if c == '\n' then Ok(vals)
        else if !IsDecimalDigit(c) then Err(NotADigit(c))
        else
          MulAddValue(vals, CharValue(c) as nat);
          Ok(MulAdd(vals, CharValue(c) as nat))
  }

  /** The corrected conversion: the base-2048 numeral of the line's number,
      with the single node 0 for the number zero. */
  function ExactConvert(line: seq<char>): (r: Result<seq<nat>>)
    ensures r.Err? <==> ExactScan(line).Err?
    ensures r.Err? ==> r == Err(ExactScan(line).error)
    ensures r.Ok? ==> |r.value| >= 1 && Fits(r.value)
    ensures r.Ok? ==> Value(r.value) == DecimalValue(line)
    ensures r.Ok? ==> r.value == [0] || r.value[0] != 0
  {
    match ExactScan(line)
    case Err(e) => Err(e)
    case Ok(vals) => if vals == [] then Ok([0]) else Ok(vals)
  }

  /** The corrected conversion refuses a line exactly when it holds a
      character other than a newline and '0' ..= '9'. */
  lemma {:induction false} ExactOkIff(line: seq<char>)
    ensures ExactScan(line).Ok? <==>
              forall k :: 0 <= k < |line| ==> line[k] == '\n' || IsDecimalDigit(line[k])
  {
    if line != [] {
      var init := line[..|line| - 1];
      ExactOkIff(init);
      assert forall k :: 0 <= k < |init| ==> init[k] == line[k];
    }
  }

  /** ':' is refused by the corrected check. */
  lemma ColonRefused()
    ensures !IsDecimalDigit(':')
    ensures ExactConvert(":\n") == Err(NotADigit(':'))
  {
    assert ":\n"[..1] == ":" && ":"[..0] == "";
  }

  /** Lines whose number fits in one digit are converted alike by main.c
      and by the corrected conversion: the accumulator never passes the mask. */
  lemma {:induction false} ScanBelowMask(line: seq<char>)
    requires forall k :: 0 <= k < |line| ==> line[k] == '\n' || IsDecimalDigit(line[k])
    requires DecimalValue(line) <= YinMask
    ensures Scan(line) == Ok(Acc(DecimalValue(line), []))
  {
    if line != [] {
      var init, c := line[..|line| - 1], line[|line| - 1];
      assert forall k :: 0 <= k < |init| ==> init[k] == line[k];
      ScanBelowMask(init);
      if c != '\n' {
        StepNoSplit(Acc(DecimalValue(init), []), c, DecimalValue(line));
      }
    }
  }

  lemma AgreeBelowMask(line: seq<char>)
    requires forall k :: 0 <= k < |line| ==> line[k] == '\n' || IsDecimalDigit(line[k])
    requires DecimalValue(line) <= YinMask
    ensures Convert(line) == ExactConvert(line) == Ok([DecimalValue(line)])
  {
    ScanBelowMask(line);
    assert Convert(line).value == [DecimalValue(line)];
    ExactOkIff(line);
    SmallNumeral(ExactScan(line).value);
    assert ExactConvert(line).value == [DecimalValue(line)];
  }

  /** A numeral without a leading zero node whose value fits in one digit is
      empty or that single digit. */
  lemma SmallNumeral(vals: seq<nat>)
    requires Fits(vals) && (vals == [] || vals[0] != 0) && Value(vals) <= YinMask
    ensures vals == [] || vals == [Value(vals)]
  {
    if vals != [] {
      var init := vals[..|vals| - 1];
      ValueSnoc(init, vals[|vals| - 1]);
      assert init + [vals[|vals| - 1]] == vals;
      if init != [] {
        assert init[0] == vals[0];
        PositiveValue(init);
      }
    }
  }

  /** A numeral with a nonzero head is worth at least one. */
  lemma {:induction false} PositiveValue(vals: seq<nat>)
    requires vals != [] && vals[0] != 0
    ensures Value(vals) >= 1
  {
    if |vals| > 1 {
      var init := vals[..|vals| - 1];
      assert init[0] == vals[0];
      PositiveValue(init);
    }
  }

  /** main.c does not convert "123456" (60 * 2048 + 576): it prints the
      nodes 66 and 57, which stand for 135225. */
  lemma NotABaseConversion()
    ensures Convert("123456\n") == Ok([66, 57])
    ensures Value([66, 57]) == 135225 != DecimalValue("123456\n") == 123456
    ensures ExactConvert("123456\n") == Ok([60, 576])
  {
    LaterDigitsSkipSplitBits();
    assert Value([66, 57]) == Value([66]) * YinBase + 57 by {
      ValueSnoc([66], 57);
      assert [66] + [57] == [66, 57];
    }
    assert Value([66]) == 66 by {
      ValueSnoc([], 66);
      assert [] + [66] == [66];
    }
    ExactTrace();
  }

  lemma DecimalSnoc(line: seq<char>, c: char)
    ensures DecimalValue(line + [c]) ==
              if IsDecimalDigit(c) then DecimalValue(line) * 10 + CharValue(c) else DecimalValue(line)
  {
    assert (line + [c])[..|line|] == line;
  }

  lemma ExactTrace()
    ensures DecimalValue("123456\n") == 123456
    ensures ExactConvert("123456\n") == Ok([60, 576])
  {
    DecimalSnoc("", '1');
    assert "" + ['1'] == "1";
    assert DecimalValue("1") == 1;
    DecimalSnoc("1", '2');
    assert "1" + ['2'] == "12";
    assert DecimalValue("12") == 12;
    DecimalSnoc("12", '3');
    assert "12" + ['3'] == "123";
    assert DecimalValue("123") == 123;
    DecimalSnoc("123", '4');
    assert "123" + ['4'] == "1234";
    assert DecimalValue("1234") == 1234;
    DecimalSnoc("1234", '5');
    assert "1234" + ['5'] == "12345";
    assert DecimalValue("12345") == 12345;
    DecimalSnoc("12345", '6');
    assert "12345" + ['6'] == "123456";
    assert DecimalValue("123456") == 123456;
    DecimalSnoc("123456", '\n');
    assert "123456" + ['\n'] == "123456\n";
    assert DecimalValue("123456\n") == 123456;
    var line := "123456\n";
    ExactOkIff(line);
    Canonical(ExactScan(line).value, 123456);
  }

  /** A numeral without a leading zero node that fits its digits is the
      base-2048 numeral of its value; shown here for values below 2048^2. */
  lemma Canonical(vals: seq<nat>, v: nat)
    requires Fits(vals) && (vals == [] || vals[0] != 0) && Value(vals) == v
    requires 2048 <= v < 2048 * 2048
    ensures vals == [v / 2048, v % 2048]
  {
    var init, last := vals[..|vals| - 1], vals[|vals| - 1];
    LastDigit(Value(init), last, v);
    var i2, l2 := init[..|init| - 1], init[|init| - 1];
    LastDigit(Value(i2), l2, Value(init));
    if i2 != [] {
      assert i2[0] == vals[0];
      PositiveValue(i2);
      assert false;
    }
    assert init == [l2];
    assert vals == init + [last];
  }

  /** The last digit and the rest of a base-2048 numeral are the remainder
      and the quotient of its value. */
  lemma LastDigit(high: nat, last: nat, v: nat)
    requires high * YinBase + last == v && last <= YinMask
    ensures last == v % YinBase && high == v / YinBase
  {
  }
}
