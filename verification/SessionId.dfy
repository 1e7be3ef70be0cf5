/** Session identifiers: UUIDv7, section 5.7 of RFC 9562. */
module SessionId {
  import opened Wrappers
  import Sorting

  datatype IdError = RangeError

  type Byte = b: int | 0 <= b < 256

  // ----- Bytes and digits

  /** The low `n` bytes of a number, most significant first. */
  function BigEndian(t: nat, n: nat): (bytes: seq<Byte>)
    ensures |bytes| == n
  {
    if n == 0 then [] else BigEndian(t / 256, n - 1) + [t % 256]
  }

  function Value(bytes: seq<Byte>): nat {
    if bytes == [] then 0 else 256 * Value(bytes[..|bytes| - 1]) + bytes[|bytes| - 1]
  }

  function Power(n: nat): (p: nat)
    ensures p >= 1
  {
    if n == 0 then 1 else 256 * Power(n - 1)
  }

  function HexDigit(d: int): char
    requires 0 <= d < 16
  {
    if d < 10 then '0' + d as char else 'a' + (d - 10) as char
  }

  function DigitAt(bytes: seq<Byte>, k: nat): int
    requires k < 2 * |bytes|
  {
    var b := bytes[k / 2];
    if k % 2 == 0 then b / 16 else b % 16
  }

  /** Two digits a byte. */
  function Hex(bytes: seq<Byte>): (h: string)
    ensures |h| == 2 * |bytes|
  {
    seq(2 * |bytes|, k requires 0 <= k < 2 * |bytes| => HexDigit(DigitAt(bytes, k)))
  }

  function WithDashes(h: string): string
    requires |h| == 32
  {
    h[..8] + "-" + h[8..12] + "-" + h[12..16] + "-" + h[16..20] + "-" + h[20..]
  }

  predicate IsHexDigit(c: char) {
    '0' <= c <= '9' || 'a' <= c <= 'f'
  }

  /** `isSessionId`: five groups of hexadecimal digits, with the version and the variant in place. */
  predicate IsSessionId(s: string) {
    && |s| == 36
    && (forall k :: 0 <= k < 36 ==> if k in {8, 13, 18, 23} then s[k] == '-' else IsHexDigit(s[k]))
    && s[14] == '7'
    && s[19] in "89ab"
  }

  // ----- Generating

  predicate IsSafeInteger(x: real) {
    x.Floor as real == x && -MAX_SAFE_INTEGER <= x.Floor <= MAX_SAFE_INTEGER
  }

  /** Keep some bits of a byte and set others. */
  function Masked(b: Byte, keep: bv8, bits: bv8): Byte {
    (((b as bv8) & keep) | bits) as int
  }

  function Stamped(now: nat, random: seq<Byte>): seq<Byte>
    requires |random| == 16
  {
    var bytes := BigEndian(now, 6) + random[6..];
    bytes[6 := Masked(bytes[6], 0x0f, 0x70)][8 := Masked(bytes[8], 0x3f, 0x80)]
  }

  /** `generateSessionId`; the random bytes are a parameter. */
  method GenerateSessionId(now: real, random: seq<Byte>) returns (id: Result<string, IdError>)
    requires |random| == 16
    ensures IsSafeInteger(now) && now >= 0.0 ==> id == Ok(WithDashes(Hex(Stamped(now.Floor, random))))
    ensures !IsSafeInteger(now) || now < 0.0 ==> id == Err(RangeError)
  {
    if !IsSafeInteger(now) || now < 0.0 { return Err(RangeError); }
    var bytes := new Byte[16](i requires 0 <= i < 16 => random[i]);
    var timestamp: nat := now.Floor;
    ghost var original: nat := timestamp;
    var index := 5;
    while index >= 0
      invariant -1 <= index <= 5
      invariant bytes[6..] == random[6..]
      invariant BigEndian(original, 6) == BigEndian(timestamp, index + 1) + bytes[index + 1..6]
    {
      ghost var rest := bytes[index + 1..6];
      bytes[index] := timestamp % 256;
      assert bytes[index..6] == [timestamp % 256] + rest;
      timestamp := timestamp / 256;
      index := index - 1;
    }
    assert bytes[0..6] == BigEndian(original, 6);
    assert bytes[..] == BigEndian(original, 6) + random[6..];
    bytes[6] := Masked(bytes[6], 0x0f, 0x70);
    bytes[8] := Masked(bytes[8], 0x3f, 0x80);
    assert bytes[..] == Stamped(original, random);
    var hexadecimal := Hex(bytes[..]);
    return Ok(hexadecimal[..8] + "-" + hexadecimal[8..12] + "-" + hexadecimal[12..16] + "-"
              + hexadecimal[16..20] + "-" + hexadecimal[20..]);
  }

  // ----- Every identifier has the form

  lemma VersionAndVariant(b: Byte)
    ensures Masked(b, 0x0f, 0x70) / 16 == 7 && 8 <= Masked(b, 0x3f, 0x80) / 16 <= 11
  {
  }

  lemma DigitsAreHex(bytes: seq<Byte>, k: nat)
    requires k < 2 * |bytes|
    ensures IsHexDigit(Hex(bytes)[k])
  {
  }

  /** The position in the undashed text of what stands at `k` in the dashed one. */
  function Undashed(k: nat): nat {
    if k <= 8 then k else if k <= 13 then k - 1 else if k <= 18 then k - 2 else if k <= 23 then k - 3 else k - 4
  }

  lemma DashedAt(h: string, k: nat)
    requires |h| == 32 && k < 36
    ensures |WithDashes(h)| == 36
    ensures WithDashes(h)[k] == if k in {8, 13, 18, 23} then '-' else h[Undashed(k)]
  {
  }

  /** Whatever the timestamp and the random bytes, the result is a session identifier. */
  lemma GeneratedIdsAreValid(now: nat, random: seq<Byte>)
    requires |random| == 16
    ensures IsSessionId(WithDashes(Hex(Stamped(now, random))))
  {
    var bytes := Stamped(now, random);
    var h := Hex(bytes);
    VersionAndVariant((BigEndian(now, 6) + random[6..])[6]);
    VersionAndVariant((BigEndian(now, 6) + random[6..])[8]);
    forall k | 0 <= k < 36
      ensures var c := WithDashes(h)[k]; if k in {8, 13, 18, 23} then c == '-' else IsHexDigit(c)
    {
      DashedAt(h, k);
      if k !in {8, 13, 18, 23} { DigitsAreHex(bytes, Undashed(k)); }
    }
    DashedAt(h, 14);
    DashedAt(h, 19);
    VariantDigit(DigitAt(bytes, 16));
  }

  lemma VariantDigit(d: int)
    requires 8 <= d <= 11
    ensures HexDigit(d) in "89ab"
  {
    assert HexDigit(d) == "89ab"[d - 8];
  }

  // ----- The identifier carries the time

  lemma {:induction false} ValueOfBigEndian(t: nat, n: nat)
    ensures Value(BigEndian(t, n)) == t % Power(n)
  {
    if n > 0 {
      ValueOfBigEndian(t / 256, n - 1);
      var bytes := BigEndian(t, n);
      assert bytes[..n - 1] == BigEndian(t / 256, n - 1);
      ModuloSplit(t, Power(n - 1));
    }
  }

  lemma ModuloSplit(t: nat, p: nat)
    requires p >= 1
    ensures t % (256 * p) == 256 * ((t / 256) % p) + t % 256
  {
    var q, r := t / 256, t % 256;
    var a, b := q / p, q % p;
    assert t == 256 * (a * p + b) + r == (256 * p) * a + (256 * b + r);
    assert 256 * b + r < 256 * p;
    ModuloIsUnique(t, 256 * p, a, 256 * b + r);
  }

  lemma {:induction false} ProductsGrow(m: nat, a: nat, b: nat)
    requires a < b
    ensures m * a + m <= m * b
    decreases b
  {
    var c := b - 1;
    assert m * (c + 1) == m * c + m;
    if a < c { ProductsGrow(m, a, c); }
  }

  lemma ModuloIsUnique(t: nat, m: nat, q: nat, r: nat)
    requires m >= 1 && t == m * q + r && r < m
    ensures t % m == r
  {
    if q < t / m { ProductsGrow(m, q, t / m); }
    if t / m < q { ProductsGrow(m, t / m, q); }
  }

  /** The first 48 bits are the timestamp modulo 2^48. */
  lemma FirstBitsAreTheTime(now: nat, random: seq<Byte>)
    requires |random| == 16
    ensures Value(Stamped(now, random)[..6]) == now % 0x1_0000_0000_0000
  {
    assert Stamped(now, random)[..6] == BigEndian(now, 6);
    ValueOfBigEndian(now, 6);
    assert Power(1) == 256 && Power(2) == 65536 && Power(3) == 0x100_0000 && Power(4) == 0x1_0000_0000;
    assert Power(5) == 0x100_0000_0000 && Power(6) == 0x1_0000_0000_0000;
  }

  // ----- Later identifiers sort after earlier ones

  /** Where two strings first differ, and which way. */
  predicate DiffersAt(a: string, b: string, k: nat) {
    k < |a| && k < |b| && a[..k] == b[..k] && a[k] < b[k]
  }

  lemma {:induction false} FirstDifference(s: nat, t: nat, n: nat) returns (k: nat)
    requires s < t < Power(n)
    ensures k < n && BigEndian(s, n)[..k] == BigEndian(t, n)[..k]
    ensures BigEndian(s, n)[k] < BigEndian(t, n)[k]
  {
    var a, b := BigEndian(s / 256, n - 1), BigEndian(t / 256, n - 1);
    if s / 256 == t / 256 {
      k := n - 1;
      assert BigEndian(s, n)[..k] == a && BigEndian(t, n)[..k] == b;
    } else {
      k := FirstDifference(s / 256, t / 256, n - 1);
      assert BigEndian(s, n)[..k] == a[..k] && BigEndian(t, n)[..k] == b[..k];
    }
  }

  /** The digit at which two identifiers differ when their bytes first differ at `k`. */
  lemma DigitsDiffer(x: seq<Byte>, y: seq<Byte>, k: nat) returns (d: nat)
    requires |x| == |y| == 16 && k < 6 && x[..k] == y[..k] && x[k] < y[k]
    ensures d < 12 && DiffersAt(Hex(x), Hex(y), d)
  {
    d := if x[k] / 16 == y[k] / 16 then 2 * k + 1 else 2 * k;
    assert forall i :: 0 <= i < k ==> x[i] == x[..k][i] == y[..k][i] == y[i];
    forall i | 0 <= i < d ensures Hex(x)[i] == Hex(y)[i] {
      assert DigitAt(x, i) == DigitAt(y, i);
    }
    assert DigitAt(x, d) < DigitAt(y, d);
  }

  lemma DashesKeepOrder(g: string, h: string, d: nat)
    requires |g| == |h| == 32 && d < 12 && DiffersAt(g, h, d)
    ensures DiffersAt(WithDashes(g), WithDashes(h), if d < 8 then d else d + 1)
  {
    var k := if d < 8 then d else d + 1;
    assert forall i :: 0 <= i < d ==> g[i] == g[..d][i] == h[..d][i] == h[i];
    forall i | 0 <= i < k ensures WithDashes(g)[i] == WithDashes(h)[i] {
      DashedAt(g, i);
      DashedAt(h, i);
    }
    DashedAt(g, k);
    DashedAt(h, k);
  }

  lemma {:induction false} DifferenceDecides(a: string, b: string, k: nat)
    requires DiffersAt(a, b, k)
    ensures Sorting.Le(a, b) && a != b
  {
    if k > 0 {
      assert a[0] == a[..k][0] == b[..k][0] == b[0];
      assert a[1..][..k - 1] == a[..k][1..] == b[..k][1..] == b[1..][..k - 1];
      DifferenceDecides(a[1..], b[1..], k - 1);
    }
  }

  /** Within 48 bits, an identifier made at a later millisecond is strictly greater, whatever the
      random bytes. */
  lemma LaterIdsSortAfter(s: nat, t: nat, p: seq<Byte>, q: seq<Byte>)
    requires s < t < 0x1_0000_0000_0000 && |p| == |q| == 16
    ensures var a, b := WithDashes(Hex(Stamped(s, p))), WithDashes(Hex(Stamped(t, q)));
      Sorting.Le(a, b) && a != b
  {
    assert Power(1) == 256 && Power(2) == 65536 && Power(3) == 0x100_0000 && Power(4) == 0x1_0000_0000;
    assert Power(5) == 0x100_0000_0000 && Power(6) == 0x1_0000_0000_0000;
    var x, y := Stamped(s, p), Stamped(t, q);
    var k := FirstDifference(s, t, 6);
    assert x[..6] == BigEndian(s, 6) && y[..6] == BigEndian(t, 6);
    assert x[..k] == x[..6][..k] == y[..6][..k] == y[..k];
    assert x[k] == x[..6][k] && y[k] == y[..6][k];
    var d := DigitsDiffer(x, y, k);
    DashesKeepOrder(Hex(x), Hex(y), d);
    DifferenceDecides(WithDashes(Hex(x)), WithDashes(Hex(y)), if d < 8 then d else d + 1);
  }

  // ----- Beyond 48 bits the order is that of the remainders

  /** The low bytes of a number are those of its remainder. */
  lemma {:induction false} LowBytesOnly(t: nat, n: nat)
    ensures BigEndian(t, n) == BigEndian(t % Power(n), n)
  {
    if n > 0 {
      var p := Power(n - 1);
      ModuloSplit(t, p);
      LowBytesOnly(t / 256, n - 1);
      var r := t % Power(n);
      assert r / 256 == (t / 256) % p && r % 256 == t % 256;
    }
  }

  function IdOf(t: nat, random: seq<Byte>): string
    requires |random| == 16
  {
    WithDashes(Hex(Stamped(t, random)))
  }

  lemma OnlyTheRemainderShows(t: nat, random: seq<Byte>)
    requires |random| == 16
    ensures IdOf(t, random) == IdOf(t % 0x1_0000_0000_0000, random)
  {
    LowBytesOnly(t, 6);
    assert Power(1) == 256 && Power(2) == 65536 && Power(3) == 0x100_0000 && Power(4) == 0x1_0000_0000;
    assert Power(5) == 0x100_0000_0000 && Power(6) == 0x1_0000_0000_0000;
  }

  predicate StrictlyBefore(a: string, b: string) {
    Sorting.Le(a, b) && a != b
  }

  /** An identifier made at `s` sorts before one made at `t`, whatever the random bytes of either. */
  ghost predicate AlwaysBefore(s: nat, t: nat) {
    forall p: seq<Byte>, q: seq<Byte> :: |p| == |q| == 16 ==> StrictlyBefore(IdOf(s, p), IdOf(t, q))
  }

  /** Identifiers sort by time exactly as far as the times do modulo 2^48. A timestamp may be as
      large as 2^53 - 1, so from 2^48 on a later one may sort before an earlier one. */
  lemma OrderIsByRemainder(s: nat, t: nat)
    ensures AlwaysBefore(s, t) <==> s % 0x1_0000_0000_0000 < t % 0x1_0000_0000_0000
  {
    var m, n := s % 0x1_0000_0000_0000, t % 0x1_0000_0000_0000;
    forall p: seq<Byte>, q: seq<Byte> | |p| == |q| == 16 && m < n ensures StrictlyBefore(IdOf(s, p), IdOf(t, q)) {
      OnlyTheRemainderShows(s, p);
      OnlyTheRemainderShows(t, q);
      LaterIdsSortAfter(m, n, p, q);
    }
    if n <= m {
      var p := seq<Byte>(16, _ => 0);
      OnlyTheRemainderShows(s, p);
      OnlyTheRemainderShows(t, p);
      if n < m { LaterIdsSortAfter(n, m, p, p); }
      NotBothBefore(IdOf(s, p), IdOf(t, p));
      assert !StrictlyBefore(IdOf(s, p), IdOf(t, p));
    }
  }

  lemma NotBothBefore(a: string, b: string)
    ensures Sorting.Le(a, b) && Sorting.Le(b, a) ==> a == b
  {
    if Sorting.Le(a, b) && Sorting.Le(b, a) { Sorting.LeAntisymmetric(a, b); }
  }

  // ----- The identifier carries the random bits

  /** The same 74 bits: all but the ones that the time, the version and the variant replace. */
  predicate SameRandomBits(p: seq<Byte>, q: seq<Byte>)
    requires |p| == |q| == 16
  {
    p[6] % 16 == q[6] % 16 && p[7] == q[7] && p[8] % 64 == q[8] % 64
    && forall i :: 9 <= i < 16 ==> p[i] == q[i]
  }

  lemma MaskedMeans(b: Byte)
    ensures Masked(b, 0x0f, 0x70) == 0x70 + b % 16 && Masked(b, 0x3f, 0x80) == 0x80 + b % 64
  {
    LowBits(b as bv8);
    assert (b as bv8) as int == b;
  }

  lemma LowBits(b: bv8)
    ensures ((b & 0x0f) | 0x70) as int == 0x70 + (b as int) % 16
    ensures ((b & 0x3f) | 0x80) as int == 0x80 + (b as int) % 64
  {
  }

  /** What stands in each byte. */
  lemma StampedMeans(t: nat, p: seq<Byte>)
    requires |p| == 16
    ensures var x := Stamped(t, p);
      && x[..6] == BigEndian(t, 6) && x[6] == 0x70 + p[6] % 16 && x[8] == 0x80 + p[8] % 64
      && forall i :: i == 7 || 9 <= i < 16 ==> x[i] == p[i]
  {
    MaskedMeans(p[6]);
    MaskedMeans(p[8]);
  }

  lemma StampsAgree(s: nat, t: nat, p: seq<Byte>, q: seq<Byte>)
    requires |p| == |q| == 16
    ensures Stamped(s, p) == Stamped(t, q) <==> BigEndian(s, 6) == BigEndian(t, 6) && SameRandomBits(p, q)
  {
    var x, y := Stamped(s, p), Stamped(t, q);
    StampedMeans(s, p);
    StampedMeans(t, q);
    if BigEndian(s, 6) == BigEndian(t, 6) && SameRandomBits(p, q) {
      forall i | 0 <= i < 16 ensures x[i] == y[i] {
        if i < 6 { assert x[i] == x[..6][i] && y[i] == y[..6][i]; }
      }
    }
  }

  lemma HexIsInjective(x: seq<Byte>, y: seq<Byte>)
    requires |x| == |y| && Hex(x) == Hex(y)
    ensures x == y
  {
    forall i | 0 <= i < |x| ensures x[i] == y[i] {
      assert Hex(x)[2 * i] == Hex(y)[2 * i] && Hex(x)[2 * i + 1] == Hex(y)[2 * i + 1];
      SameDigit(DigitAt(x, 2 * i), DigitAt(y, 2 * i));
      SameDigit(DigitAt(x, 2 * i + 1), DigitAt(y, 2 * i + 1));
    }
  }

  lemma SameDigit(d: int, e: int)
    requires 0 <= d < 16 && 0 <= e < 16 && HexDigit(d) == HexDigit(e)
    ensures d == e
  {
  }

  lemma DashesHideNothing(g: string, h: string)
    requires |g| == |h| == 32 && WithDashes(g) == WithDashes(h)
    ensures g == h
  {
    forall k | 0 <= k < 32 ensures g[k] == h[k] {
      var d := if k < 8 then k else if k < 12 then k + 1 else if k < 16 then k + 2 else if k < 20 then k + 3 else k + 4;
      DashedAt(g, d);
      DashedAt(h, d);
    }
  }

  lemma SameBytesSameRemainder(s: nat, t: nat)
    ensures BigEndian(s, 6) == BigEndian(t, 6) <==> s % 0x1_0000_0000_0000 == t % 0x1_0000_0000_0000
  {
    assert Power(1) == 256 && Power(2) == 65536 && Power(3) == 0x100_0000 && Power(4) == 0x1_0000_0000;
    assert Power(5) == 0x100_0000_0000 && Power(6) == 0x1_0000_0000_0000;
    ValueOfBigEndian(s, 6);
    ValueOfBigEndian(t, 6);
    LowBytesOnly(s, 6);
    LowBytesOnly(t, 6);
  }

  /** Two identifiers are the same if and only if their times agree modulo 2^48 and their random bytes agree in the
      74 bits that are kept: no other bit of either is lost. */
  lemma SameIdIff(s: nat, t: nat, p: seq<Byte>, q: seq<Byte>)
    requires |p| == |q| == 16
    ensures IdOf(s, p) == IdOf(t, q) <==>
      s % 0x1_0000_0000_0000 == t % 0x1_0000_0000_0000 && SameRandomBits(p, q)
  {
    StampsAgree(s, t, p, q);
    SameBytesSameRemainder(s, t);
    if IdOf(s, p) == IdOf(t, q) {
      DashesHideNothing(Hex(Stamped(s, p)), Hex(Stamped(t, q)));
      HexIsInjective(Stamped(s, p), Stamped(t, q));
    }
  }
}
