/** Length-prefixed text: fields written one after the other, each behind its decimal length
    and a colon. The encoding behind derived operation identifiers. */
module Identities {
  function Digit(d: nat): char
    requires d < 10
  {
    "0123456789"[d]
  }

  function Decimal(n: nat): (s: string)
    ensures s != "" && forall k :: 0 <= k < |s| ==> s[k] in "0123456789"
  {
    if n < 10 then [Digit(n)] else Decimal(n / 10) + [Digit(n % 10)]
  }

  function LengthPrefixed(fields: seq<string>): (s: string)
    ensures s == "" <==> fields == []
  {
    if fields == [] then "" else Decimal(|fields[0]|) + ":" + fields[0] + LengthPrefixed(fields[1..])
  }

  lemma {:induction false} DecimalIsInjective(m: nat, n: nat)
    requires Decimal(m) == Decimal(n)
    ensures m == n
  {
    var s, t := Decimal(m), Decimal(n);
    assert s[|s| - 1] == Digit(m % 10) && t[|t| - 1] == Digit(n % 10);
    if m >= 10 && n >= 10 {
      assert s[..|s| - 1] == Decimal(m / 10) && t[..|t| - 1] == Decimal(n / 10);
      DecimalIsInjective(m / 10, n / 10);
    }
  }

  /** Digits end at the first colon, so the prefix can be read off. */
  lemma {:induction false} HeadsAgree(a: string, x: string, b: string, y: string)
    requires ':' !in a && ':' !in b && a + ":" + x == b + ":" + y
    ensures a == b && x == y
  {
    var s, t := a + ":" + x, b + ":" + y;
    assert s[0] == (if a == "" then ':' else a[0]) && t[0] == (if b == "" then ':' else b[0]);
    assert (a != "" ==> a[0] in a) && (b != "" ==> b[0] in b);
    if a == "" || b == "" {
      assert x == s[1..] && y == t[1..];
    } else {
      assert a[1..] + ":" + x == s[1..] && b[1..] + ":" + y == t[1..];
      HeadsAgree(a[1..], x, b[1..], y);
      assert a == [a[0]] + a[1..] && b == [b[0]] + b[1..];
    }
  }

  /** The encoding is uniquely decodable on lists of arbitrary strings, of any lengths. */
  lemma {:induction false} LengthPrefixedIsInjective(a: seq<string>, b: seq<string>)
    requires LengthPrefixed(a) == LengthPrefixed(b)
    ensures a == b
  {
    if a != [] && b != [] {
      var ra, rb := a[0] + LengthPrefixed(a[1..]), b[0] + LengthPrefixed(b[1..]);
      assert LengthPrefixed(a) == Decimal(|a[0]|) + ":" + ra;
      assert LengthPrefixed(b) == Decimal(|b[0]|) + ":" + rb;
      HeadsAgree(Decimal(|a[0]|), ra, Decimal(|b[0]|), rb);
      DecimalIsInjective(|a[0]|, |b[0]|);
      assert a[0] == ra[..|a[0]|] && b[0] == rb[..|b[0]|];
      assert LengthPrefixed(a[1..]) == ra[|a[0]|..] && LengthPrefixed(b[1..]) == rb[|b[0]|..];
      LengthPrefixedIsInjective(a[1..], b[1..]);
      assert a == [a[0]] + a[1..] && b == [b[0]] + b[1..];
    }
  }
}
