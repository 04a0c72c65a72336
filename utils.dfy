/**
 * The command-line helpers of the admin console: splitting a command line
 * on spaces the way Java's String.split(" ") does, telling whether an
 * argument is an int, and the title line the console prints.
 */
module Utils {
  import opened Tables

  // ---------------------------------------------------------------------------------------------
  // String.split(" ")

  /** The pieces of s between its spaces, in order, empty ones included. */
  function Pieces(s: string): (ps: seq<string>)
    ensures |ps| >= 1
    decreases |s|
  {
    if s == [] then [[]]
    else
      var rest := Pieces(s[1..]);
      if s[0] == ' ' then [[]] + rest else [[s[0]] + rest[0]] + rest[1..]
  }

  /** The pieces glued back together with single spaces. */
  function Join(ps: seq<string>): string
    requires |ps| >= 1
  {
    if |ps| == 1 then ps[0] else ps[0] + " " + Join(ps[1..])
  }

  /** Splitting on spaces loses nothing: the pieces hold no space and join back to s. */
  lemma {:induction false} PiecesJoin(s: string)
    ensures Join(Pieces(s)) == s
    ensures forall i :: 0 <= i < |Pieces(s)| ==> ' ' !in Pieces(s)[i]
    decreases |s|
  {
    if s != [] {
      var rest := Pieces(s[1..]);
      PiecesJoin(s[1..]);
      if s[0] == ' ' {
        assert Pieces(s) == [[]] + rest;
        assert Pieces(s)[1..] == rest;
      } else {
        var ps := Pieces(s);
        assert ps == [[s[0]] + rest[0]] + rest[1..];
        if |rest| == 1 {
          assert ps == [[s[0]] + rest[0]];
        } else {
          assert ps[1..] == rest[1..];
          assert Join(rest) == rest[0] + " " + Join(rest[1..]);
        }
        assert ps[0] == [s[0]] + rest[0];
        assert forall i :: 1 <= i < |ps| ==> ps[i] == rest[i];
      }
    }
  }

  /** The list without its trailing empty strings. */
  function DropTrailingEmpty(ps: seq<string>): (r: seq<string>)
    ensures |r| <= |ps| && r == ps[..|r|]
    ensures r != [] ==> r[|r| - 1] != []
    ensures forall i :: |r| <= i < |ps| ==> ps[i] == []
  {
    if ps == [] then []
    else if ps[|ps| - 1] == [] then DropTrailingEmpty(ps[..|ps| - 1])
    else ps
  }

  /**
   * String.split(" "): a string without a space is its own single token
   * (the empty string included); otherwise the pieces between spaces, with
   * the trailing empty ones removed.
   */
  function Split(s: string): (toks: seq<string>)
    ensures ' ' !in s ==> toks == [s]
    ensures ' ' in s ==> |toks| <= |Pieces(s)| && toks == Pieces(s)[..|toks|] && (toks != [] ==> toks[|toks| - 1] != [])
  {
    if ' ' !in s then [s] else DropTrailingEmpty(Pieces(s))
  }

  /** A string of spaces only (at least one) splits into no token at all. */
  lemma {:induction false} SpacesSplitToNothing(s: string)
    requires |s| >= 1 && forall i :: 0 <= i < |s| ==> s[i] == ' '
    ensures Split(s) == []
  {
    assert s[0] == ' ';
    AllPiecesEmpty(s);
    ghost var ps := Pieces(s);
    assert DropTrailingEmpty(ps) == [] by {
      DropAllEmpty(ps);
    }
  }

  lemma {:induction false} AllPiecesEmpty(s: string)
    requires forall i :: 0 <= i < |s| ==> s[i] == ' '
    ensures forall i :: 0 <= i < |Pieces(s)| ==> Pieces(s)[i] == []
    decreases |s|
  {
    if s != [] {
      AllPiecesEmpty(s[1..]);
    }
  }

  lemma {:induction false} DropAllEmpty(ps: seq<string>)
    requires forall i :: 0 <= i < |ps| ==> ps[i] == []
    ensures DropTrailingEmpty(ps) == []
    decreases |ps|
  {
    if ps != [] {
      DropAllEmpty(ps[..|ps| - 1]);
    }
  }

  /** Pieces that are all empty come from a string of spaces only. */
  lemma {:induction false} EmptyPiecesFromSpaces(s: string)
    requires forall i :: 0 <= i < |Pieces(s)| ==> Pieces(s)[i] == []
    ensures forall i :: 0 <= i < |s| ==> s[i] == ' '
    decreases |s|
  {
    if s != [] {
      var rest := Pieces(s[1..]);
      assert Pieces(s)[0] == [];
      assert s[0] == ' ';
      assert Pieces(s) == [[]] + rest;
      forall i | 0 <= i < |rest|
        ensures rest[i] == []
      {
        assert rest[i] == Pieces(s)[i + 1];
      }
      EmptyPiecesFromSpaces(s[1..]);
      forall i | 0 <= i < |s|
        ensures s[i] == ' '
      {
        if i > 0 {
          assert s[i] == s[1..][i - 1];
        }
      }
    }
  }

  /** The tokens of a split are the pieces between spaces, up to the last non-empty one. */
  lemma SplitTokens(s: string)
    requires ' ' in s
    ensures |Split(s)| <= |Pieces(s)| && Split(s) == Pieces(s)[..|Split(s)|]
    ensures forall i :: |Split(s)| <= i < |Pieces(s)| ==> Pieces(s)[i] == []
    ensures Split(s) != [] ==> Split(s)[|Split(s)| - 1] != []
    ensures forall i :: 0 <= i < |Split(s)| ==> ' ' !in Split(s)[i]
  {
    PiecesJoin(s);
  }

  // ---------------------------------------------------------------------------------------------
  // parseCommand and parseArgs

  /**
   * parseCommand: the first token of the split. A line of spaces only has
   * no first token; reading it fails with an index-out-of-bounds error,
   * which is None here.
   */
  function ParseCommand(input: string): (r: Option<string>)
    ensures r.Some? <==> |Split(input)| >= 1
    ensures r.Some? ==> r.value == Split(input)[0]
  {
    var command := Split(input);
    if |command| >= 1 then Some(command[0]) else None
  }

  /**
   * parseCommand has no token to return exactly for a non-empty line of
   * spaces only; any other line, the empty one included, has a first token.
   */
  lemma NoCommandExactlyForSpaces(input: string)
    ensures ParseCommand(input).None? <==> |input| >= 1 && forall i :: 0 <= i < |input| ==> input[i] == ' '
  {
    if |input| >= 1 && forall i :: 0 <= i < |input| ==> input[i] == ' ' {
      SpacesSplitToNothing(input);
    }
    if ParseCommand(input).None? {
      assert ' ' in input;
      SplitTokens(input);
      EmptyPiecesFromSpaces(input);
    }
  }

  /** parseArgs: the tokens after the first one, in order; none when there is at most one token. */
  function ParseArgs(input: string): (args: seq<string>)
    ensures |args| == if |Split(input)| > 1 then |Split(input)| - 1 else 0
    ensures forall i :: 0 <= i < |args| ==> args[i] == Split(input)[i + 1]
  {
    var command := Split(input);
    if |command| > 1 then command[1..] else []
  }

  /** The command and its arguments are the whole split, in order. */
  lemma CommandThenArgs(input: string)
    requires ParseCommand(input).Some?
    ensures [ParseCommand(input).value] + ParseArgs(input) == Split(input)
  {
    var command := Split(input);
    assert [command[0]] + command[1..] == command;
  }

  /** The pieces of a line with a run of two spaces and a trailing space. */
  lemma PiecesExample()
    ensures Pieces("free  5 ") == ["free", "", "5", ""]
  {
    PiecesOfSpacedFive();
    assert "free  5 " == "free" + "  5 ";
    PiecesOfWord("free", "  5 ");
    assert "free" + "" == "free";
  }

  /** A word without spaces in front of t sticks to the first piece of t. */
  lemma {:induction false} PiecesOfWord(w: string, t: string)
    requires ' ' !in w
    ensures Pieces(w + t) == [w + Pieces(t)[0]] + Pieces(t)[1..]
    decreases |w|
  {
    if w == [] {
      assert w + t == t && w + Pieces(t)[0] == Pieces(t)[0];
      assert [Pieces(t)[0]] + Pieces(t)[1..] == Pieces(t);
    } else {
      PiecesOfWord(w[1..], t);
      assert (w + t)[1..] == w[1..] + t;
      ConsParts(w[1..] + Pieces(t)[0], Pieces(t)[1..]);
      assert [w[0]] + (w[1..] + Pieces(t)[0]) == w + Pieces(t)[0];
    }
  }

  /** The pieces of the end of that line, from its run of two spaces. */
  lemma PiecesOfSpacedFive()
    ensures Pieces("  5 ") == ["", "", "5", ""]
  {
    assert Pieces(" ") == ["", ""] by { assert " "[1..] == ""; }
    assert Pieces("5 ") == ["5", ""] by { assert "5 "[1..] == " "; assert ['5'] + "" == "5"; assert ["", ""][1..] == [""]; }
    assert Pieces(" 5 ") == ["", "5", ""] by { assert " 5 "[1..] == "5 "; }
    assert "  5 "[1..] == " 5 ";
  }

  /** Runs of spaces give empty tokens, trailing spaces give none, and a line without space is one token. */
  lemma SplitExamples()
    ensures Split("free  5 ") == ["free", "", "5"]
    ensures Split("logs") == ["logs"]
    ensures Split("") == [""]
  {
    SplitOfCommandLine();
  }

  /** The command line of the example: its trailing empty piece is dropped. */
  lemma SplitOfCommandLine()
    ensures Split("free  5 ") == ["free", "", "5"]
  {
    PiecesExample();
    assert "free  5 "[4] == ' ';
    var ps, toks := ["free", "", "5", ""], ["free", "", "5"];
    assert ps[|ps| - 1] == [] && ps[..|ps| - 1] == toks;
    assert toks[|toks| - 1] == "5" != [];
    assert DropTrailingEmpty(toks) == toks;
  }

  // ---------------------------------------------------------------------------------------------
  // isNaN: Integer.parseInt accepts the string or not

  const INT_MIN := -0x8000_0000
  const INT_MAX := 0x7fff_ffff

  predicate IsDigit(c: char) { '0' <= c <= '9' }

  predicate AllDigits(s: string) {
    forall i :: 0 <= i < |s| ==> IsDigit(s[i])
  }

  /** The number a string of decimal digits writes. */
  function DigitsValue(s: string): nat
    requires AllDigits(s)
  {
    if s == [] then 0 else DigitsValue(s[..|s| - 1]) * 10 + (s[|s| - 1] as int - '0' as int)
  }

  /**
   * Integer.parseInt: an optional '-' or '+' and at least one decimal digit,
   * whose value fits in a 32-bit int; None where it throws
   * NumberFormatException.
   */
  function ParseInt(s: string): (r: Option<int>)
    ensures r.Some? ==> INT_MIN <= r.value <= INT_MAX
    ensures r.Some? ==> |s| >= 1 && (IsDigit(s[0]) || ((s[0] == '-' || s[0] == '+') && |s| >= 2))
  {
    if |s| == 0 then None
    else
      var digits := if s[0] == '-' || s[0] == '+' then s[1..] else s;
      if |digits| == 0 || !AllDigits(digits) then None
      else
        var v: int := if s[0] == '-' then -(DigitsValue(digits) as int) else DigitsValue(digits);
        if INT_MIN <= v <= INT_MAX then Some(v) else None
  }

  /** isNaN: the string is not an int. */
  predicate IsNaN(s: string)
    ensures s == [] ==> IsNaN(s)
    ensures !IsNaN(s) ==> |s| >= 1 && IsDigit(s[|s| - 1])
  {
    ParseInt(s).None?
  }

  /** The decimal digits of n, most significant first, without leading zeros. */
  function NatToDigits(n: nat): string {
    if n < 10 then [('0' as int + n) as char] else NatToDigits(n / 10) + [('0' as int + n % 10) as char]
  }

  /** Integer.toString. */
  function IntToString(n: int): string {
    if n < 0 then "-" + NatToDigits(-n) else NatToDigits(n)
  }

  lemma {:induction false} DigitsRoundTrip(n: nat)
    ensures |NatToDigits(n)| >= 1 && AllDigits(NatToDigits(n))
    ensures DigitsValue(NatToDigits(n)) == n
  {
    if n >= 10 {
      DigitsRoundTrip(n / 10);
      var ds := NatToDigits(n);
      assert ds[..|ds| - 1] == NatToDigits(n / 10);
    }
  }

  /** Every int written out in decimal parses back to itself, so it is not NaN. */
  lemma ParseIntRoundTrip(n: int)
    requires INT_MIN <= n <= INT_MAX
    ensures ParseInt(IntToString(n)) == Some(n)
    ensures !IsNaN(IntToString(n))
  {
    var s := IntToString(n);
    if n < 0 {
      var ds := NatToDigits(-n);
      DigitsRoundTrip(-n);
      assert s == "-" + ds;
      assert s[0] == '-' && s[1..] == ds;
    } else {
      var ds := NatToDigits(n);
      DigitsRoundTrip(n);
      assert s == ds;
      assert IsDigit(ds[0]);
    }
  }

  /** A word such as "all" is not a number. */
  lemma AllIsNaN()
    ensures IsNaN("all")
  {
    assert !IsDigit("all"[0]);
  }

  // ---------------------------------------------------------------------------------------------
  // printTitle

  /** The line printTitle builds: "-- " + str + " ", padded with '-' up to 51 characters. */
  method PrintTitle(str: string) returns (line: string)
    ensures |line| == if |str| + 4 < 51 then 51 else |str| + 4
    ensures line[..|str| + 4] == "-- " + str + " "
    ensures forall i :: |str| + 4 <= i < |line| ==> line[i] == '-'
  {
    line := "-- " + str + " ";
    var i := |line|;
    while i <= 50
      invariant |str| + 4 <= i
      invariant |line| == i && line[..|str| + 4] == "-- " + str + " "
      invariant forall j :: |str| + 4 <= j < |line| ==> line[j] == '-'
      invariant i <= 51 || i == |str| + 4
    {
      line := line + "-";
      i := i + 1;
    }
  }
}
