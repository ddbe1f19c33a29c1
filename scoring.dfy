/** `Snake.score_to_text`: the decimal score behind the zeros left over from
    a five-zero prefix, `"00000"[len(str(score)) - 1:] + str(score)`. */
module Scoring {

  predicate IsDigit(c: char)
  {
    '0' <= c <= '9'
  }

  predicate AllDigits(s: string)
  {
    forall i :: 0 <= i < |s| ==> IsDigit(s[i])
  }

  function DigitChar(d: nat): (c: char)
    requires d < 10
    ensures IsDigit(c)
  {
    ('0' as int + d) as char
  }

  /** `str(n)` for a non-negative integer: its decimal digits, no leading zero. */
  function Digits(n: nat): (s: string)
    ensures 1 <= |s| && AllDigits(s)
    ensures |s| > 1 ==> s[0] != '0'
    decreases n
  {
    if n < 10 then [DigitChar(n)] else Digits(n / 10) + [DigitChar(n % 10)]
  }

  /** The number a string of decimal digits denotes. */
  function Value(s: string): nat
    requires AllDigits(s)
  {
    if s == [] then 0
    else Value(s[..|s| - 1]) * 10 + (s[|s| - 1] as int - '0' as int)
  }

  function Pow10(k: nat): (p: nat)
    ensures p >= 1
  {
    if k == 0 then 1 else 10 * Pow10(k - 1)
  }

  /** Reading back the digits gives the number. */
  lemma {:induction false} ValueOfDigits(n: nat)
    ensures Value(Digits(n)) == n
    decreases n
  {
    if n >= 10 {
      ValueOfDigits(n / 10);
      var s := Digits(n);
      assert s[..|s| - 1] == Digits(n / 10);
    }
  }

  /** A number has at most `k` digits exactly when it is below 10^k. */
  lemma {:induction false} DigitsLength(n: nat, k: nat)
    requires k >= 1
    ensures |Digits(n)| <= k <==> n < Pow10(k)
    decreases n
  {
    PowAtLeastTen(k);
    if n >= 10 {
      if k == 1 {
        assert |Digits(n)| == |Digits(n / 10)| + 1;
      } else {
        DigitsLength(n / 10, k - 1);
      }
    }
  }

  lemma {:induction false} PowAtLeastTen(k: nat)
    requires k > 0
    ensures Pow10(k) >= 10
  {
    if k > 1 {
      PowAtLeastTen(k - 1);
    }
  }

  /** Leading zeros do not change the value of a digit string. */
  lemma {:induction false} LeadingZeros(z: string, s: string)
    requires forall i :: 0 <= i < |z| ==> z[i] == '0'
    requires AllDigits(s)
    ensures AllDigits(z + s) && Value(z + s) == Value(s)
    decreases |s|
  {
    if s == [] {
      assert z + s == z;
      AllZeros(z);
    } else {
      var init := s[..|s| - 1];
      assert (z + s)[..|z + s| - 1] == z + init;
      LeadingZeros(z, init);
    }
  }

  lemma {:induction false} AllZeros(z: string)
    requires forall i :: 0 <= i < |z| ==> z[i] == '0'
    ensures AllDigits(z) && Value(z) == 0
    decreases |z|
  {
    if z != [] {
      AllZeros(z[..|z| - 1]);
    }
  }

  /** The text the score board shows. */
  function ScoreToText(score: nat): (r: string)
    ensures var s := Digits(score);
      && |r| == (if |s| <= 6 then 6 else |s|)
      && r[|r| - |s|..] == s
      && forall i :: 0 <= i < |r| - |s| ==> r[i] == '0'
  {
    var s := Digits(score);
    var zeros := "00000";
    var k := |s| - 1;
    (if k <= |zeros| then zeros[k..] else "") + s
  }

  /** The score board reads back as the score, and it shows exactly six
      characters for every score below one million. */
  lemma ScoreTextValue(score: nat)
    ensures AllDigits(ScoreToText(score)) && Value(ScoreToText(score)) == score
    ensures |ScoreToText(score)| == 6 <==> score < 1000000
  {
    var r, s := ScoreToText(score), Digits(score);
    assert r == r[..|r| - |s|] + s;
    LeadingZeros(r[..|r| - |s|], s);
    ValueOfDigits(score);
    DigitsLength(score, 6);
  }

  /** The board for a few scores: six characters, not five. */
  lemma ScoreTextZero()
    ensures ScoreToText(0) == "000000"
  {
    assert Digits(0) == "0";
    assert "00000"[0..] == "00000";
  }

  lemma ScoreTextHundred()
    ensures ScoreToText(100) == "000100"
  {
    assert Digits(10) == "10";
    assert Digits(100) == "100";
  }

  lemma ScoreTextFiveDigits()
    ensures ScoreToText(12345) == "012345"
  {
    assert Digits(12) == "12";
    assert Digits(123) == "123";
    assert Digits(1234) == "1234";
    assert Digits(12345) == "12345";
  }

  /** Seven digits or more come back without padding. */
  lemma ScoreTextSevenDigits()
    ensures ScoreToText(1234567) == "1234567"
  {
    assert Digits(12) == "12";
    assert Digits(123) == "123";
    assert Digits(1234) == "1234";
    assert Digits(12345) == "12345";
    assert Digits(123456) == "123456";
    assert Digits(1234567) == "1234567";
  }
}
