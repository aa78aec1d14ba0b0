/**
 Decimal numbers as std::to_chars prints and std::from_chars reads them, for a 64-bit unsigned word.
 */
module Decimal {
  import opened Bytes
  import opened Messages

  function ToChars(n: nat): (r: seq<byte>)
    ensures r != [] && forall k :: 0 <= k < |r| ==> IsDigit(r[k])
    decreases n
  {
    var last: byte := 48 + n % 10;
    if n < 10 then [last] else ToChars(n / 10) + [last]
  }

  // How many digits `s` starts with.
  function DigitCount(s: seq<byte>): (r: nat)
    ensures r <= |s| && (forall k :: 0 <= k < r ==> IsDigit(s[k])) && (r < |s| ==> !IsDigit(s[r]))
  {
    if s == [] || !IsDigit(s[0]) then 0 else 1 + DigitCount(s[1..])
  }

  function ValueOf(digits: seq<byte>): nat
    requires forall k :: 0 <= k < |digits| ==> IsDigit(digits[k])
  {
    if digits == [] then 0
    else
      var n := |digits| - 1;
      ValueOf(digits[..n]) * 10 + Digit(digits[n])
  }

  // The number `s` starts with, unless it starts with no digit or does not fit the word.
  function FromChars(s: seq<byte>): (r: Option<nat>)
    ensures r.Some? ==> r.value < TWO_TO_THE_64
  {
    var n := DigitCount(s);
    if n == 0 || ValueOf(s[..n]) >= TWO_TO_THE_64 then None else Some(ValueOf(s[..n]))
  }

  lemma {:induction false} ValueOfToChars(n: nat)
    ensures ValueOf(ToChars(n)) == n
    decreases n
  {
    var last: byte := 48 + n % 10;
    var s := ToChars(n);
    if n < 10 {
      assert s == [last] && s[..0] == [];
    } else {
      ValueOfToChars(n / 10);
      assert s[..|s| - 1] == ToChars(n / 10);
    }
  }

  lemma {:induction false} DigitsAhead(digits: seq<byte>, rest: seq<byte>)
    requires (forall j :: 0 <= j < |digits| ==> IsDigit(digits[j])) && (rest != [] ==> !IsDigit(rest[0]))
    ensures DigitCount(digits + rest) == |digits|
  {
    if digits == [] {
      assert digits + rest == rest;
    } else {
      DigitsAhead(digits[1..], rest);
      assert (digits + rest)[1..] == digits[1..] + rest;
    }
  }

  // Reading undoes printing, also in front of something that is not a digit.
  lemma DecimalRoundTrip(n: nat, rest: seq<byte>)
    requires n < TWO_TO_THE_64 && (rest != [] ==> !IsDigit(rest[0]))
    ensures FromChars(ToChars(n) + rest) == Some(n)
  {
    var s := ToChars(n) + rest;
    ValueOfToChars(n);
    var k := DigitCount(s);
    DigitsAhead(ToChars(n), rest);
    assert s[..k] == ToChars(n);
  }

  // ---------- what a text writes ----------

  // The digits write `n`, the most significant first.
  predicate Writes(digits: seq<byte>, n: nat) {
    if digits == [] then n == 0
    else DIGITS[n % 10] == digits[|digits| - 1] && Writes(digits[..|digits| - 1], n / 10)
  }

  // Written without zeros in front.
  predicate IsNumeral(text: seq<byte>, n: nat) {
    text != [] && Writes(text, n) && (|text| > 1 ==> text[0] != DIGITS[0])
  }

  // The number of all the digits the text begins with.
  ghost predicate StartsWith(text: seq<byte>, n: nat) {
    exists k :: 0 < k <= |text| && Writes(text[..k], n) && (k < |text| ==> text[k] !in DIGITS)
  }

  lemma DigitsCount(c: byte)
    ensures IsDigit(c) <==> c in DIGITS
    ensures IsDigit(c) ==> DIGITS[Digit(c)] == c
  {
    assert forall v :: 0 <= v < 10 ==> DIGITS[v] == 48 + v;
    if IsDigit(c) { assert DIGITS[c - 48] == c; }
  }

  lemma {:induction false} ValueIsWritten(digits: seq<byte>, n: nat)
    ensures Writes(digits, n) <==> (forall k :: 0 <= k < |digits| ==> IsDigit(digits[k])) && ValueOf(digits) == n
  {
    if digits != [] {
      var front, c := digits[..|digits| - 1], digits[|digits| - 1];
      ValueIsWritten(front, n / 10);
      DigitIs(c, n % 10);
      assert digits == front + [c];
      if forall k :: 0 <= k < |digits| ==> IsDigit(digits[k]) {
        assert ValueOf(digits) == ValueOf(front) * 10 + Digit(c);
        Joined(n, ValueOf(front), Digit(c));
      }
    }
  }

  lemma Joined(n: nat, front: nat, last: nat)
    requires last < 10
    ensures front * 10 + last == n <==> n / 10 == front && n % 10 == last
  {}

  lemma {:induction false} Prints(n: nat)
    ensures IsNumeral(ToChars(n), n) && (n > 0 ==> ToChars(n)[0] != DIGITS[0])
    decreases n
  {
    ValueOfToChars(n);
    ValueIsWritten(ToChars(n), n);
    if n >= 10 { Prints(n / 10); }
  }

  // Reading gives a number exactly if the text begins with it and it fits the word.
  lemma ReadsExactly(text: seq<byte>, n: nat)
    ensures FromChars(text) == Some(n) <==> StartsWith(text, n) && n < TWO_TO_THE_64
  {
    hide ValueOf, Writes;
    var count := DigitCount(text);
    ValueIsWritten(text[..count], n);
    if count < |text| { DigitsCount(text[count]); }
    forall k | 0 < k <= |text| && Writes(text[..k], n) && (k < |text| ==> text[k] !in DIGITS) ensures k == count {
      ValueIsWritten(text[..k], n);
      assert forall j :: 0 <= j < k ==> text[..k][j] == text[j];
      if k < |text| { DigitsCount(text[k]); }
    }
  }
}
