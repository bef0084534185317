# yin: pronounceable base-2048 numbers

`yin` reads decimal numbers, one per line, and prints each as a chain of
"yin digits". A yin digit holds 11 bits and is written as one syllable:
consonant, vowel, consonant. The value is split into the mixed-radix triple
(y, i, n) with radices 21, 5 and 21. Syllables are joined by `.` and the line
ends with a newline. This project models the three parts of `main.c` in
Dafny and proves their properties:

- `codec.dfy`, module `YinDigit`: the digit codec. `Encode` is
  `i2yin_digit`, `Decode` is `yin_digit2i` and `Render` is
  `print_yin_digit`. Encoding returns `None` (the NULL return) exactly for
  values above 2047. Otherwise decoding gives the value back. The other
  direction holds too: decoding and re-encoding a valid triple that fits in
  11 bits gives the same triple. Every rendered character comes from its
  alphabet, and distinct digits render differently.
- `chain.dfy`, module `YinNumber`: a yin number is a chain of digits, head
  (most significant) first. `NumberText` is the text `print_yin_number`
  writes: the syllables joined by `Join`. `PrintNumber` is that function's
  `while` loop, proved to produce `NumberText`. `FreeNumber` is the loop of
  `free_yin_number`. The text has 4 characters per node. It holds syllable k
  at offset 4k, then `.`, or the newline after the last syllable. The text
  determines the chain.
- `convert.dfy`, module `YinConvert`: the per-line loop in `main`.
  - `Step` is one character.
  - `Scan` is the loop over a whole line.
  - `Convert` adds the unconditional final node.
  - `ConvertLine` is the imperative loop itself, with the accumulator `total`
    and the chain `yd`. It is proved to build `Digits(Convert(line))`.

  Main invariant: `total` stays at or below 2047 before every character.
  It is at most 10 right after a node is split off. So `10 * total + digit`
  is at most 20480, and the 32-bit `unsigned int` never wraps. `Step`
  writes that wrap out explicitly; its companion lemmas `NoWrap` and
  `StepWithinMask` show the wrap never triggers. Other proved facts:
  - a node is split off exactly when `10 * total + digit` passes 2047;
  - every node value fits in a digit, so `i2yin_digit` never returns NULL;
  - a line fails exactly when it holds a rejected character, and the error
    names the first one;
  - a line of N digit characters gives at most 1 + N / 3 nodes.

  Concrete lemmas fix the empty line, `0`, `2047`, `2048`, `123456`, `12a3`
  and `:`.
- `exact.dfy`, module `YinExact`: the corrected conversion for the two
  findings below.

Facts about main.c that the model makes precise:
- At most one node is split off per character (the `if` at main.c:161).
  Right after a split `total` is at most 10, so a loop there would split
  off no more.
- `:` is accepted with the value 10 (see "## Findings").
- The chain is not the base-2048 numeral of the line: `123456` gives the
  nodes 66 and 57.
- The accumulator is proved bounded by 20480, so the 32-bit `total` never
  wraps, however long the line.

A rejected character is fatal to the whole run in the program. Here it is
the `Err` result of one line.

## Model

| member | source | states |
|---|---|---|
| YinDigit.Encode | main.c:46-71 | `None` exactly when the value exceeds YIN_MASK (2047). Otherwise a triple with y < 21, i < 5, n < 21 that decodes back to the value, and the quotient left after y is 0 (the assert at line 69) |
| YinDigit.Decode | main.c:73-89 | on a valid triple the value gives back each sub-digit: n is the value mod 21, i is (value / 21) mod 5, y is value / 105 |
| YinDigit.DecodeEncode | main.c:53-89 | decoding a valid triple whose value is at most 2047 and encoding it again gives the same triple |
| YinDigit.EncodedRange | main.c:61-78 | every value up to 2047 encodes, its high consonant index is below 20, and the digit decodes below 2^11 (the claim at line 78). That bound comes from `Encode`'s round trip (the digit decodes back to the value), not from the bound on y |
| YinDigit.AlphabetSizes | main.c:23-29 | the radices are the sizes of the consonant (21) and vowel (5) alphabets, and 21 * 5 * 21 exceeds YIN_MASK |
| YinDigit.Render | main.c:91-98 | three characters: a consonant, a vowel and a consonant, each from the alphabets of lines 23-24 |
| YinDigit.RenderInjective | main.c:96-98 | two valid digits with the same syllable are equal |
| YinNumber.NumberText | main.c:100-115 | the printed text has 4 characters per node, and is the bare newline for an empty chain |
| YinNumber.NumberTextAlphabet | main.c:96-115 | the printed text uses only alphabet letters, `.` and newline |
| YinNumber.NumberTextAt | main.c:107-115 | node k's syllable sits at offset 4k, followed by `.` when the node has a successor and by the newline when it is the last |
| YinNumber.NumberTextInjective | main.c:107-115 | two valid chains that print the same text are equal |
| YinNumber.PrintNumber | main.c:107-115 | the while loop walking the chain from the head produces exactly `NumberText` |
| YinNumber.FreeNumber | main.c:126-138 | the release loop visits every node once, in chain order from the head |
| YinConvert.MaskAndShift | main.c:163-165 | on a 32-bit unsigned value, `& 2047` is the remainder by 2048 and `>> 11` the quotient |
| YinConvert.Step | main.c:147-155 | a newline changes nothing. A character fails exactly when it is a rejected one (outside `'0'..':'` and not a newline), and the error names it |
| YinConvert.NoWrap | main.c:157-158 | from `total <= 2047` and a digit value up to 10, the 32-bit `total * 10 + digit` does not wrap |
| YinConvert.StepWithinMask | main.c:157-166 | from `total <= 2047`, the total stays within 2047. A node is split off exactly when `10*total + digit > 2047`; then it is prepended, fits in 11 bits, the new total is at most 10 and `2048*total' + node == 10*total + digit`. Otherwise the total becomes `10*total + digit` and the chain is unchanged |
| YinConvert.Scan | main.c:145-167 | after any accepted line the accumulator is within 2047 and every split-off node fits in a digit |
| YinConvert.Convert | main.c:145-171 | the chain is the final flush `total & 2047` (equal to `total`) in front of the split-off nodes; it has at least one node, all within 2047, and fails exactly when `Scan` fails, with the same character |
| YinConvert.Digits | main.c:162-171 | the digits `i2yin_digit` makes of the node values exist (never NULL), are valid, and decode back to the values |
| YinConvert.LineOutput | main.c:145-173 | a line's printed text has 4 characters per node of its chain. It fails exactly when the conversion does, naming the same character |
| YinConvert.LineOutputAt | main.c:162-173 | node k of the line's chain is printed at offset 4k as the syllable of `i2yin_digit` of its value, followed by `.` when another node follows and by the newline after the last |
| YinConvert.ScanStopsAtError | main.c:151-155 | once a prefix has failed, the rest of the line does not matter |
| YinConvert.ScanOkIff | main.c:147-155 | a line converts if and only if none of its characters is rejected |
| YinConvert.ScanErrorIsFirst | main.c:147-155 | the error names the first rejected character |
| YinConvert.ChainLengthBound | main.c:157-171 | a line with N digit characters yields at most 1 + N / 3 nodes |
| YinConvert.EmptyLine | main.c:145-146 | an empty line, or a bare newline, gives the single node 0 |
| YinConvert.Zero | main.c:145-171 | `"0\n"` gives the single node 0 |
| YinConvert.MaskBoundary | main.c:157-166 | `"2047\n"` gives the single node 2047: the mask itself does not split |
| YinConvert.FirstSplit | main.c:161-171 | `"2048\n"` gives the nodes 1, 0, head first |
| YinConvert.LaterDigitsSkipSplitBits | main.c:157-166 | `"123456\n"` gives the nodes 66, 57: after a split only the retained high bits are multiplied by ten |
| YinConvert.LetterRejected | main.c:151-155 | `"12a3\n"` fails naming `'a'` |
| YinConvert.ColonAccepted | main.c:151-152 | `':'` passes the `digit > 10` guard with the value 10, and `":\n"` gives the node 10 |
| YinConvert.PrintedEmptyLine | main.c:169-173 | an empty line prints `bab` and a newline |
| YinConvert.PrintedFirstSplit | main.c:107-115 | `"2048\n"` prints `bac.bab` and a newline |
| YinConvert.PrintedSplitBits | main.c:107-115 | `"123456\n"` prints `bof.bit` and a newline |
| YinConvert.PrintedColon | main.c:151-173 | `":\n"` prints `ban` and a newline instead of failing |
| YinConvert.ConvertLine | main.c:145-171 | the imperative loop fails exactly when `Convert` does, with the same character, and otherwise builds the chain `Digits(Convert(line))` |
| YinExact.MulAdd | main.c:157-158 | multiplying a base-2048 numeral by ten and adding a carry below ten keeps every node within 2047 and introduces no leading zero node |
| YinExact.MulAddValue | main.c:157-158 | the product's value is `10*value + carry`: the carry from each node into the next higher one loses nothing |
| YinExact.ExactScan | main.c:145-167 | the corrected loop's numeral has the line's decimal value and no leading zero node |
| YinExact.ExactConvert | main.c:145-171 | fails exactly when the corrected loop does, with its error. Otherwise the corrected chain has at least one node, all within 2047, its value is the line's decimal number, and it is canonical |
| YinExact.ExactOkIff | main.c:151-155 | the corrected check refuses a line exactly when it holds a character other than newline and `'0'..'9'` |
| YinExact.ColonRefused | main.c:151-155 | `':'` is not a decimal digit, and the corrected conversion refuses `":\n"` |
| YinExact.AgreeBelowMask | main.c:145-171 | for a decimal line whose number is at most 2047, main.c's conversion and the corrected one both give that number as a single node |
| YinExact.NotABaseConversion | main.c:157-166 | main.c gives `[66, 57]` for `"123456\n"`, worth 135225, not 123456; the corrected conversion gives `[60, 576]` |

## Findings

| source | as written | input that shows it | evidently intended | confidence | as-written member | corrected member |
|---|---|---|---|---|---|---|
| main.c:157-166 | after a node is split off, only the retained high bits are multiplied by ten for the following digits, so the chain is not the base-2048 numeral of the line | `123456` prints the nodes 66, 57 (135225) | the chain's value is the decimal number (60, 576) | high; not executed | YinExact.NotABaseConversion | YinExact.ExactConvert |
| main.c:152 | the guard `digit > 10` lets `':'` through with the value 10 | `:` prints `ban` instead of the "is not a digit" error | `digit > 9`, accepting only `'0'..'9'` | high; not executed | YinConvert.ColonAccepted | YinExact.ExactOkIff |

The counterexample lemma `YinExact.NotABaseConversion` shows the first row
against the corrected conversion. `YinExact.ColonRefused` shows the second.
`YinExact.AgreeBelowMask` shows the two conversions agree on every decimal
line whose number fits in one digit. The rest of the model (`Convert`,
`ConvertLine`, the printing) follows the code as written, since that is what
the program prints.

## Left out

- Reading lines with `getline` and the buffer bookkeeping (main.c:141-144, 176-179): a line is a `seq<char>` input. Characters stand for the bytes of the line. A byte at or above 0x80 is rejected both by the C code (the digit is negative with a signed `char` and above 10 with an unsigned one) and by the model (a value above 10).
- `printf` and `fprintf` output: printing is the string `NumberText` / `PrintNumber` returns. The diagnostic text and `exit(-3)` (main.c:153-154) become `Err(NotADigit(c))`. The rest of the run is not modelled, so a failure is per line here.
- `malloc` and `free`: the chain is a sequence of digits, not a heap list. `FreeNumber` records the order in which nodes are released but does not model the heap, aliasing or double release.
- `sanity_check` (main.c:117-124), a debug helper: its assertion is the round trip in `Encode`'s contract and `DecodeEncode`.
- YinDigit.Decode: the bound `0 <= result < 2^11` promised at main.c:78 is stated only for triples `Encode` produces (through `Encode`'s contract and `EncodedRange`). A hand-built valid triple with y = 20 would decode to 2100 or more, but main.c never builds one.
- YinConvert.MaskAndShift: relates the bit operations to `%` and `/` on `bv32` only. Its values are not converted to `int`, because that conversion is too costly for the solver.
