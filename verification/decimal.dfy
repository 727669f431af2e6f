/**
  Decimal printing of unsigned integers, as `Print::print` writes them on the
  serial link, and comma-separated argument lists, with the parsers that undo them.
 */
module Decimal {
  import opened Bytes

  const ZERO: uint8 := 0x30   // '0'
  const COMMA: uint8 := 0x2C  // ','

  predicate IsDigit(b: uint8)
  {
    ZERO <= b <= ZERO + 9
  }

  predicate AllDigits(s: seq<uint8>)
  {
    forall i :: 0 <= i < |s| ==> IsDigit(s[i])
  }

  /** The base-10 text of `n`, most significant digit first, without leading zeros. */
  function Digits(n: nat): (r: seq<uint8>)
    ensures 1 <= |r|
    ensures AllDigits(r)
    ensures |r| > 1 ==> r[0] != ZERO
    decreases n
  {
    if n < 10 then [ZERO + n] else Digits(n / 10) + [ZERO + n % 10]
  }

  /** The value of a string of decimal digits. */
  function ParseDigits(s: seq<uint8>): nat
    requires AllDigits(s)
  {
    if |s| == 0 then 0 else ParseDigits(s[..|s| - 1]) * 10 + (s[|s| - 1] - ZERO)
  }

  lemma {:induction false} ParseDigitsOfDigits(n: nat)
    ensures ParseDigits(Digits(n)) == n
    decreases n
  {
    if n >= 10 {
      var d := Digits(n);
      assert d[..|d| - 1] == Digits(n / 10);
      ParseDigitsOfDigits(n / 10);
    }
  }

  /** Arguments printed one after another with a comma between neighbours. */
  function Join(xs: seq<nat>): (r: seq<uint8>)
    ensures |xs| >= 1 ==> |r| >= 1
    ensures forall i :: 0 <= i < |r| ==> IsDigit(r[i]) || r[i] == COMMA
    decreases |xs|
  {
    if |xs| == 0 then []
    else if |xs| == 1 then Digits(xs[0])
    else Join(xs[..|xs| - 1]) + [COMMA] + Digits(xs[|xs| - 1])
  }

  lemma JoinSnoc(xs: seq<nat>, x: nat)
    requires |xs| >= 1
    ensures Join(xs + [x]) == Join(xs) + [COMMA] + Digits(x)
  {
    assert (xs + [x])[..|xs|] == xs;
  }

  lemma JoinThree(a: nat, b: nat, c: nat)
    ensures Join([a, b, c]) == Digits(a) + [COMMA] + Digits(b) + [COMMA] + Digits(c)
  {
    assert [a] + [b] == [a, b];
    assert [a, b] + [c] == [a, b, c];
    JoinSnoc([a], b);
    JoinSnoc([a, b], c);
  }

  /** Split a comma-separated list of decimal numbers; None on any other byte or empty item. */
  function ParseList(s: seq<uint8>): (r: Option<seq<nat>>)
    ensures r.Some? ==> |r.value| >= 1
    decreases |s|
  {
    match LastIndexOf(s, COMMA)
    case None =>
      if 1 <= |s| && AllDigits(s) then Some([ParseDigits(s)]) else None
    case Some(i) =>
      var item := s[i + 1..];
      if 1 <= |item| && AllDigits(item) then
        match ParseList(s[..i])
        case None => None
        case Some(front) => Some(front + [ParseDigits(item)])
      else None
  }

  lemma SplitLast(xs: seq<nat>)
    requires |xs| >= 1
    ensures xs[..|xs| - 1] + [xs[|xs| - 1]] == xs
  {
  }

  lemma DigitsAvoid(s: seq<uint8>, b: uint8)
    requires AllDigits(s)
    requires !IsDigit(b)
    ensures b !in s
  {
    forall k | 0 <= k < |s|
      ensures s[k] != b
    {
      assert IsDigit(s[k]);
    }
  }

  /** One more item after a comma extends the parsed list by its value. */
  lemma ParseListSnoc(front: seq<uint8>, item: seq<uint8>)
    requires 1 <= |item| && AllDigits(item)
    ensures ParseList(front + [COMMA] + item)
         == (if ParseList(front).Some? then Some(ParseList(front).value + [ParseDigits(item)]) else None)
  {
    DigitsAvoid(item, COMMA);
    LastIndexBeforeSuffix(front, COMMA, item);
    var s := front + [COMMA] + item;
    assert s[..|front|] == front;
    assert s[|front| + 1..] == item;
  }

  lemma {:induction false} ParseListOfJoin(xs: seq<nat>)
    requires |xs| >= 1
    ensures ParseList(Join(xs)) == Some(xs)
    decreases |xs|
  {
    var last := Digits(xs[|xs| - 1]);
    ParseDigitsOfDigits(xs[|xs| - 1]);
    if |xs| == 1 {
      DigitsAvoid(last, COMMA);
      assert Join(xs) == last;
      assert xs == [xs[0]];
    } else {
      var init := xs[..|xs| - 1];
      ParseListOfJoin(init);
      ParseListSnoc(Join(init), last);
      SplitLast(xs);
    }
  }
}
