/** A yin number: a chain of digits, the list head (the most significant
    digit) first, with its printed text and its release (main.c:100-138). */
module YinNumber {
  import opened YinDigit

  /** The nodes of a chain, head first; `next` is the following element. */
  type Chain = seq<Digit>

  predicate ValidChain(c: Chain)
  {
    forall k :: 0 <= k < |c| ==> ValidDigit(c[k])
  }

  /** The characters a printed yin number is made of. */
  predicate InAlphabet(ch: char)
  {
    ch in Consonants || ch in Vowels || ch == '.' || ch == '\n'
  }

  /** The syllables of a chain, head first. */
  function Syllables(c: Chain): (r: seq<string>)
    requires ValidChain(c)
    ensures |r| == |c|
    ensures forall k :: 0 <= k < |c| ==> r[k] == Render(c[k])
  {
    if c == [] then [] else [Render(c[0])] + Syllables(c[1..])
  }

  predicate Triples(s: seq<string>)
  {
    forall k :: 0 <= k < |s| ==> |s[k]| == 3
  }

  /** Three-letter syllables joined by '.', with one newline at the end;
      a bare newline when there are none. */
  function Join(s: seq<string>): (r: string)
    requires Triples(s)
    ensures |r| == if s == [] then 1 else 4 * |s|
    ensures s == [] ==> r == "\n"
  {
    if s == [] then "\n"
    else if |s| == 1 then s[0] + "\n"
    else s[0] + "." + Join(s[1..])
  }

  /** Where each piece of a joined text sits: syllable k at 4k, followed by
      '.' when another syllable follows and by the newline after the last. */
  lemma {:induction false} JoinAt(s: seq<string>, k: nat)
    requires Triples(s) && k < |s|
    ensures Join(s)[4 * k .. 4 * k + 3] == s[k]
    ensures Join(s)[4 * k + 3] == if k + 1 < |s| then '.' else '\n'
  {
    if |s| == 1 {
      assert Join(s) == s[0] + "\n";
      HeadOfLast(s[0], "\n");
    } else {
      var t := Join(s[1..]);
      assert Join(s) == s[0] + "." + t;
      if k == 0 {
        HeadOf(s[0], ".", t);
      } else {
        JoinAt(s[1..], k - 1);
        SkipPrefix(s[0] + ".", t, k);
      }
    }
  }

  /** A joined text holds only the syllables' characters, '.' and newline. */
  lemma {:induction false} JoinChars(s: seq<string>)
    requires Triples(s)
    requires forall j, i :: 0 <= j < |s| && 0 <= i < |s[j]| ==> InAlphabet(s[j][i])
    ensures forall k :: 0 <= k < |Join(s)| ==> InAlphabet(Join(s)[k])
  {
    if |s| == 1 {
      assert Join(s) == s[0] + "\n";
    } else if |s| > 1 {
      var t := Join(s[1..]);
      JoinChars(s[1..]);
      assert Join(s) == (s[0] + ".") + t;
      forall k | 0 <= k < |Join(s)|
        ensures InAlphabet(Join(s)[k])
      {
        if k >= 4 {
          assert Join(s)[k] == t[k - 4];
        } else if k < 3 {
          assert Join(s)[k] == s[0][k];
        }
      }
    }
  }

  /** The text print_yin_number writes: the syllables head first, a '.'
      after every node that has a successor, and one newline at the end.
      Four characters per node; a bare newline for the empty chain. */
  function NumberText(c: Chain): (s: string)
    requires ValidChain(c)
    ensures |s| == if c == [] then 1 else 4 * |c|
    ensures c == [] ==> s == "\n"
  {
    Join(Syllables(c))
  }

  /** The text uses only alphabet letters, '.' and the newline. */
  lemma NumberTextAlphabet(c: Chain)
    requires ValidChain(c)
    ensures forall k :: 0 <= k < |NumberText(c)| ==> InAlphabet(NumberText(c)[k])
  {
    var s := Syllables(c);
    forall j, i | 0 <= j < |s| && 0 <= i < |s[j]|
      ensures InAlphabet(s[j][i])
    {
      assert s[j] == Render(c[j]);
    }
    JoinChars(s);
  }

  /** Where each piece of the text sits: node k's syllable at 4k, followed by
      '.' when node k has a successor and by the newline when it is the last. */
  lemma NumberTextAt(c: Chain, k: nat)
    requires ValidChain(c) && k < |c|
    ensures |NumberText(c)| == 4 * |c|
    ensures NumberText(c)[4 * k .. 4 * k + 3] == Render(c[k])
    ensures NumberText(c)[4 * k + 3] == if k + 1 < |c| then '.' else '\n'
  {
    JoinAt(Syllables(c), k);
  }

  /** The text of a chain of one and of two nodes. */
  lemma OneNodeText(d: Digit)
    requires ValidDigit(d)
    ensures NumberText([d]) == Render(d) + "\n"
  {
    assert Syllables([d]) == [Render(d)];
  }

  lemma TwoNodeText(a: Digit, b: Digit)
    requires ValidDigit(a) && ValidDigit(b)
    ensures NumberText([a, b]) == Render(a) + "." + (Render(b) + "\n")
  {
    var s := [Render(a), Render(b)];
    assert Syllables([b]) == [Render(b)];
    assert [a, b][1..] == [b];
    assert Syllables([a, b]) == s;
    assert s[1..] == [Render(b)];
    assert Join([Render(b)]) == Render(b) + "\n";
  }

  /** The first four characters: a syllable and its separator. */
  lemma HeadOf(r: string, m: string, t: string)
    requires |r| == 3 && |m| == 1
    ensures (r + m + t)[0 .. 3] == r
    ensures (r + m + t)[3] == m[0]
  {
  }

  lemma HeadOfLast(r: string, m: string)
    requires |r| == 3 && |m| == 1
    ensures (r + m)[0 .. 3] == r
    ensures (r + m)[3] == m[0]
  {
  }

  /** Past a four-character prefix, offset 4k of `r + t` is offset 4(k - 1) of `t`. */
  lemma SkipPrefix(r: string, t: string, k: nat)
    requires |r| == 4 && 0 < k && 4 * k + 3 < |r + t|
    ensures (r + t)[4 * k .. 4 * k + 3] == t[4 * (k - 1) .. 4 * (k - 1) + 3]
    ensures (r + t)[4 * k + 3] == t[4 * (k - 1) + 3]
  {
  }

  /** The printed text determines the chain: two valid chains that print
      alike are equal. */
  lemma NumberTextInjective(a: Chain, b: Chain)
    requires ValidChain(a) && ValidChain(b) && NumberText(a) == NumberText(b)
    ensures a == b
  {
    if a != [] {
      assert |a| == |b|;
      forall k | 0 <= k < |a|
        ensures a[k] == b[k]
      {
        NumberTextAt(a, k);
        NumberTextAt(b, k);
        RenderInjective(a[k], b[k]);
      }
    }
  }

  /** print_yin_number: walks the chain from the head, appending each
      digit's syllable, a '.' when a next node exists, and finally "\n". */
  method PrintNumber(c: Chain) returns (out: string)
    requires ValidChain(c)
    ensures out == NumberText(c)
  {
    out := "";
    var k := 0;
    while k < |c|
      invariant 0 <= k <= |c|
      invariant out + NumberText(c[k..]) == NumberText(c)
    {
      out := out + Render(c[k]);
      if k + 1 < |c| {
        out := out + ".";
      }
      assert c[k..][1..] == c[k + 1..];
      k := k + 1;
    }
    out := out + "\n";
  }

  /** free_yin_number: visits every node once, from the head, saving the
      successor before releasing the node; `released` lists the nodes in
      the order they are freed. */
  method FreeNumber(c: Chain) returns (released: Chain)
    ensures released == c
  {
    released := [];
    var rest := c;
    while rest != []
      invariant released + rest == c
      decreases |rest|
    {
      var next := rest[1..];
      released := released + [rest[0]];
      rest := next;
    }
  }
}
