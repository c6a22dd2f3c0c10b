/** The pieces of PHP and Redis value semantics the selector's cross-queue
    comparison depends on. */
module Php {
  import opened Jobs

  /** `(bool)$v` for a `?int`: null and 0 are false. */
  predicate Truthy(v: Option<int>)
  {
    v.Some? && v.value != 0
  }

  /** `$a <= $b` for two `?int` operands: two integers compare numerically;
      when either side is null both sides are converted to bool, with
      false < true. */
  function LessEq(a: Option<int>, b: Option<int>): (r: bool)
    ensures a.Some? && b.Some? ==> (r <==> a.value <= b.value)
    ensures a.None? ==> r
    ensures a.Some? && b.None? ==> (r <==> a.value == 0)
  {
    if a.Some? && b.Some? then a.value <= b.value else !Truthy(a) || Truthy(b)
  }

  function Pow10(k: nat): (p: nat)
    ensures p >= 1
  {
    if k == 0 then 1 else 10 * Pow10(k - 1)
  }

  /** The most significant decimal digit of a positive number. */
  function LeadingDigit(n: nat): (d: nat)
    requires n > 0
    ensures 1 <= d <= 9
    ensures exists k: nat :: d * Pow10(k) <= n < (d + 1) * Pow10(k)
  {
    if n < 10 then
      assert n * Pow10(0) <= n < (n + 1) * Pow10(0);
      n
    else
      var d := LeadingDigit(n / 10);
      LeadingDigitStep(n, d);
      d
  }

  lemma LeadingDigitStep(n: nat, d: nat)
    requires n >= 10
    requires exists k: nat :: d * Pow10(k) <= n / 10 < (d + 1) * Pow10(k)
    ensures exists k: nat :: d * Pow10(k) <= n < (d + 1) * Pow10(k)
  {
    var k: nat :| d * Pow10(k) <= n / 10 < (d + 1) * Pow10(k);
    var p := Pow10(k);
    var q := n / 10;
    var lo := d * p;
    var hi := (d + 1) * p;
    assert Pow10(k + 1) == 10 * p;
    assert n == 10 * q + n % 10;
    ScaleByTen(d, p);
    ScaleByTen(d + 1, p);
    assert d * Pow10(k + 1) == 10 * lo;
    assert (d + 1) * Pow10(k + 1) == 10 * hi;
    assert q + 1 <= hi;
    assert d * Pow10(k + 1) <= n < (d + 1) * Pow10(k + 1);
  }

  lemma ScaleByTen(x: nat, p: nat)
    ensures x * (10 * p) == 10 * (x * p)
  {
  }

  function DigitChar(d: nat): char
    requires d <= 9
  {
    ['0', '1', '2', '3', '4', '5', '6', '7', '8', '9'][d]
  }

  /** The decimal digits of a natural number, without leading zeros. */
  function Digits(n: nat): (r: string)
    ensures |r| >= 1
    decreases n
  {
    if n < 10 then [DigitChar(n)] else Digits(n / 10) + [DigitChar(n % 10)]
  }

  /** How Redis renders an integral sorted-set score as text. */
  function RenderScore(score: int): string
  {
    if score < 0 then "-" + Digits(-score) else Digits(score)
  }

  /** `empty($s)` for a string: true for "" and "0". */
  predicate EmptyString(s: string)
  {
    s == "" || s == "0"
  }

  /** `(int)$c` for a one-character string: the digit's value, or 0 when the
      character does not start a number. */
  function CastChar(c: char): int
  {
    if '0' <= c <= '9' then c as int - '0' as int else 0
  }

  /** What `getCronTimestamp` makes of a member's score:
      `empty($score) ? null : (int)$score[0]`. */
  function FirstCharOfScore(score: int): Option<int>
  {
    var text := RenderScore(score);
    if EmptyString(text) then None else Some(CastChar(text[0]))
  }

  lemma {:induction false} DigitsHead(n: nat)
    requires n > 0
    ensures Digits(n)[0] == DigitChar(LeadingDigit(n))
    ensures n >= 10 ==> |Digits(n)| >= 2
    decreases n
  {
    if n >= 10 {
      DigitsHead(n / 10);
    }
  }

  /** The score's text is empty-like exactly for score 0; otherwise its first
      character gives 0 for a negative score and the leading decimal digit for
      a positive one, never the score itself once it has two digits. */
  lemma FirstCharOfScoreValue(score: int)
    ensures score == 0 ==> FirstCharOfScore(score) == None
    ensures score < 0 ==> FirstCharOfScore(score) == Some(0)
    ensures score > 0 ==> FirstCharOfScore(score) == Some(LeadingDigit(score))
  {
    if score > 0 {
      DigitsHead(score);
      assert CastChar(DigitChar(LeadingDigit(score))) == LeadingDigit(score);
    } else if score < 0 {
      assert RenderScore(score)[0] == '-';
    }
  }
}
