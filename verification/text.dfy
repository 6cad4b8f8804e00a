/**
 Textual rendering used by `toString`: decimal form of an `int` (as Java's
 string concatenation renders an `Integer`) and joining with a separator.
 */
module Text {

  predicate IsDigit(c: char) {
    '0' <= c <= '9'
  }

  function DigitChar(d: nat): (c: char)
    requires d < 10
    ensures IsDigit(c) && c as int - '0' as int == d
  {
    "0123456789"[d]
  }

  function DigitValue(c: char): nat
    requires IsDigit(c)
  {
    c as int - '0' as int
  }

  /** Decimal digits of `n`, most significant first, without leading zeros. */
  function NatToString(n: nat): (s: string)
    ensures |s| >= 1
    ensures forall i :: 0 <= i < |s| ==> IsDigit(s[i])
    ensures s[0] == '0' ==> n == 0
  {
    if n < 10 then [DigitChar(n)] else NatToString(n / 10) + [DigitChar(n % 10)]
  }

  /** Decimal form of `i`: a minus sign for a negative value, then the digits of its magnitude. */
  function IntToString(i: int): (s: string)
    ensures |s| >= 1
  {
    if i < 0 then "-" + NatToString(-i) else NatToString(i)
  }

  /** Reads a string of decimal digits back as a number. */
  function ParseNat(s: string): nat
    requires forall i :: 0 <= i < |s| ==> IsDigit(s[i])
  {
    if |s| == 0 then 0 else 10 * ParseNat(s[..|s| - 1]) + DigitValue(s[|s| - 1])
  }

  /** Reads an optional minus sign followed by decimal digits. */
  function ParseInt(s: string): int
    requires |s| >= 1
    requires forall i :: 0 < i < |s| ==> IsDigit(s[i])
    requires s[0] == '-' || IsDigit(s[0])
  {
    if s[0] == '-' then -(ParseNat(s[1..]) as int) else ParseNat(s)
  }

  lemma {:induction false} NatToStringRoundTrip(n: nat)
    ensures ParseNat(NatToString(n)) == n
  {
    if n >= 10 {
      NatToStringRoundTrip(n / 10);
      var s := NatToString(n);
      assert s[..|s| - 1] == NatToString(n / 10);
    }
  }

  /** The decimal form can be read back: it loses no information. */
  lemma IntToStringRoundTrip(i: int)
    ensures var s := IntToString(i);
      && (forall k :: 0 < k < |s| ==> IsDigit(s[k]))
      && (s[0] == '-' || IsDigit(s[0]))
      && ParseInt(s) == i
  {
    var s := IntToString(i);
    if i < 0 {
      var d := NatToString(-i);
      NatToStringRoundTrip(-i);
      assert s[1..] == d;
      assert forall k :: 0 < k < |s| ==> s[k] == d[k - 1];
      assert ParseInt(s) == -(ParseNat(d) as int);
    } else {
      NatToStringRoundTrip(i);
      assert s[0] != '-';
      assert ParseInt(s) == ParseNat(NatToString(i));
    }
  }

  /** Two integers render alike exactly when they are equal. */
  lemma IntToStringInjective(a: int, b: int)
    ensures IntToString(a) == IntToString(b) <==> a == b
  {
    IntToStringRoundTrip(a);
    IntToStringRoundTrip(b);
  }

  /** The parts in order, with `sep` between consecutive parts. */
  function Join(parts: seq<string>, sep: string): string {
    if |parts| == 0 then ""
    else if |parts| == 1 then parts[0]
    else Join(parts[..|parts| - 1], sep) + sep + parts[|parts| - 1]
  }

  /** Joining a part in front of others puts one separator between it and the rest, none when it is alone. */
  lemma {:induction false} JoinCons(a: string, parts: seq<string>, sep: string)
    ensures Join([a] + parts, sep) == if |parts| == 0 then a else a + sep + Join(parts, sep)
    decreases |parts|
  {
    var all := [a] + parts;
    if |parts| == 0 {
      assert all == [a];
    } else if |parts| == 1 {
      assert all[..1] == [a];
    } else {
      var init := parts[..|parts| - 1];
      assert all[..|all| - 1] == [a] + init;
      assert parts[..|parts| - 1] == init;
      JoinCons(a, init, sep);
    }
  }

  /** Joining one more part of `parts` extends the text by the separator and that part. */
  lemma JoinPrefix(parts: seq<string>, k: nat, sep: string)
    requires k < |parts|
    ensures Join(parts[..k + 1], sep) == if k == 0 then parts[0] else Join(parts[..k], sep) + sep + parts[k]
  {
    assert parts[..k + 1][..k] == parts[..k];
  }
}
