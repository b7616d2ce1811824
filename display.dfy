/**
 * The two pieces of text the Game component derives on every render
 * (src/index.js, render): the status line and the label of each history
 * button.
 */
module Display {

  import opened Wrappers
  import opened Squares

  /** The letter a mark is shown as. */
  function MarkText(m: Mark): (s: string)
    ensures |s| == 1
  {
    if m == X then "X" else "O"
  }

  /**
   * The status line: the winner once there is one, otherwise the player
   * whose turn it is.
   */
  function Status(winner: Option<Mark>, xIsNext: bool): (s: string)
    ensures |s| > 0 && (s[0] == 'W' <==> winner.Some?)
    ensures s[|s| - 1..] == MarkText(if winner.Some? then winner.value else MoverMark(xIsNext))
  {
    match winner
    case None => "Next player: " + MarkText(MoverMark(xIsNext))
    case Some(m) => "Winner: " + MarkText(m)
  }

  /**
   * Different states never share a status line: the text tells whether the
   * game is won, by whom, and otherwise whose turn it is.
   */
  lemma StatusDistinguishes(w1: Option<Mark>, x1: bool, w2: Option<Mark>, x2: bool)
    requires Status(w1, x1) == Status(w2, x2)
    ensures w1 == w2
    ensures w1.None? ==> x1 == x2
  {
    var s := Status(w1, x1);
    assert s[0] == (if w1.None? then 'N' else 'W') == (if w2.None? then 'N' else 'W');
    if w1.None? {
      assert s[13] == Status(w1, x1)[13] == Status(w2, x2)[13];
    } else {
      assert s[8] == Status(w1, x1)[8] == Status(w2, x2)[8];
    }
  }

  /** The decimal character for a digit. */
  function DigitChar(d: nat): (c: char)
    requires d < 10
    ensures '0' <= c <= '9'
  {
    "0123456789"[d]
  }

  /** The value of a decimal character, the inverse of DigitChar. */
  function DigitValue(c: char): (d: nat)
    requires '0' <= c <= '9'
    ensures d < 10 && DigitChar(d) == c
  {
    (c as int - '0' as int)
  }

  /**
   * A natural number in decimal, as JavaScript's string concatenation
   * writes it: at least one digit, no leading zero.
   */
  function NatToDecimal(n: nat): (s: string)
    ensures |s| >= 1
    ensures forall i :: 0 <= i < |s| ==> '0' <= s[i] <= '9'
    ensures s[0] == '0' ==> n == 0
  {
    if n < 10 then [DigitChar(n)] else NatToDecimal(n / 10) + [DigitChar(n % 10)]
  }

  /** The number a string of decimal digits denotes. */
  function DecimalToNat(s: string): nat
    requires forall i :: 0 <= i < |s| ==> '0' <= s[i] <= '9'
  {
    if s == [] then 0 else 10 * DecimalToNat(s[..|s| - 1]) + DigitValue(s[|s| - 1])
  }

  /** Writing a number in decimal loses nothing: reading it back gives the number. */
  lemma {:induction false} DecimalRoundTrip(n: nat)
    ensures DecimalToNat(NatToDecimal(n)) == n
  {
    var s := NatToDecimal(n);
    if n < 10 {
      assert s[..|s| - 1] == [];
      assert DigitValue(DigitChar(n)) == n;
    } else {
      assert s[..|s| - 1] == NatToDecimal(n / 10);
      DecimalRoundTrip(n / 10);
      assert DigitValue(DigitChar(n % 10)) == n % 10;
    }
  }

  /** The prefix the label of every later snapshot starts with. */
  const StepPrefix: string := "Go to step #"

  /**
   * The label of the history button for snapshot k: the start of the game
   * for k = 0, otherwise the step prefix followed by k in decimal.
   */
  function MoveLabel(k: nat): (text: string)
    ensures k == 0 <==> text == "Go to game start"
    ensures k > 0 ==> |text| > |StepPrefix| && text[..|StepPrefix|] == StepPrefix
    ensures k > 0 ==> var digits := text[|StepPrefix|..];
              && (forall i :: 0 <= i < |digits| ==> '0' <= digits[i] <= '9')
              && digits[0] != '0'
              && DecimalToNat(digits) == k
  {
    if k == 0 then "Go to game start"
    else
      var text := StepPrefix + NatToDecimal(k);
      DecimalRoundTrip(k);
      assert text[|StepPrefix|..] == NatToDecimal(k);
      assert text[6] == 's';
      text
  }

  /** Every history button has its own label: equal labels mean the same snapshot. */
  lemma MoveLabelInjective(i: nat, j: nat)
    requires MoveLabel(i) == MoveLabel(j)
    ensures i == j
  {
  }

  /** The labels of the history list, one per snapshot, in order. */
  function MoveLabels<T>(history: seq<T>): (labels: seq<string>)
    ensures |labels| == |history|
    ensures forall k :: 0 <= k < |labels| ==> labels[k] == MoveLabel(k)
  {
    seq(|history|, k requires 0 <= k < |history| => MoveLabel(k))
  }
}
