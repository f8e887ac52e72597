/**
 * Dotted-decimal IPv4 addresses, standing in for the standard library's
 * `Ipv4Addr` and its `FromStr` parser: an address is read as exactly four
 * groups separated by '.', each group one to three ASCII digits with no
 * leading zero (unless the group is "0") and a value of at most 255.
 */
module Ipv4 {
  import opened Wrappers

  type Octet = x: int | 0 <= x < 256

  datatype Ipv4Addr = Ipv4Addr(a: Octet, b: Octet, c: Octet, d: Octet)

  predicate IsDigit(c: char) {
    '0' <= c <= '9'
  }

  predicate AllDigits(s: string) {
    forall i :: 0 <= i < |s| ==> IsDigit(s[i])
  }

  function DigitValue(c: char): (n: nat)
    requires IsDigit(c)
    ensures n < 10
  {
    c as int - '0' as int
  }

  function DigitChar(n: nat): (c: char)
    requires n < 10
    ensures IsDigit(c) && DigitValue(c) == n
  {
    (n + '0' as int) as char
  }

  /** The value of a string of decimal digits, most significant digit first. */
  function DecimalValue(s: string): nat
    requires AllDigits(s)
  {
    if |s| == 0 then 0 else 10 * DecimalValue(s[..|s| - 1]) + DigitValue(s[|s| - 1])
  }

  /** One group of an address, as the standard library's reader accepts it. */
  function ParseOctet(s: string): Option<Octet> {
    if 1 <= |s| <= 3 && AllDigits(s) && (|s| > 1 ==> s[0] != '0') && DecimalValue(s) <= 255
    then Some(DecimalValue(s))
    else None
  }

  /** The shortest decimal text of an octet. */
  function OctetText(n: Octet): string {
    if n < 10 then [DigitChar(n)]
    else if n < 100 then [DigitChar(n / 10), DigitChar(n % 10)]
    else [DigitChar(n / 100), DigitChar(n / 10 % 10), DigitChar(n % 10)]
  }

  /** The pieces of `s` between occurrences of `sep`, as Rust's `str::split`. */
  function Split(s: string, sep: char): (parts: seq<string>)
    ensures |parts| >= 1
  {
    if |s| == 0 then [""]
    else
      var rest := Split(s[1..], sep);
      if s[0] == sep then [""] + rest else [[s[0]] + rest[0]] + rest[1..]
  }

  /** The inverse of `Split`: the parts glued together with `sep`. */
  function Join(parts: seq<string>, sep: char): string
    requires |parts| >= 1
  {
    if |parts| == 1 then parts[0] else parts[0] + [sep] + Join(parts[1..], sep)
  }

  function ParseIpv4(s: string): Option<Ipv4Addr> {
    var parts := Split(s, '.');
    if |parts| != 4 then None
    else
      match (ParseOctet(parts[0]), ParseOctet(parts[1]), ParseOctet(parts[2]), ParseOctet(parts[3]))
      case (Some(a), Some(b), Some(c), Some(d)) => Some(Ipv4Addr(a, b, c, d))
      case _ => None
  }

  /** The canonical dotted-decimal text of an address, as `Display` writes it. */
  function Ipv4Text(addr: Ipv4Addr): string {
    Join([OctetText(addr.a), OctetText(addr.b), OctetText(addr.c), OctetText(addr.d)], '.')
  }

  lemma OctetTextDigits(n: Octet)
    ensures AllDigits(OctetText(n)) && '.' !in OctetText(n)
  {
  }

  lemma OneDigit(s: string)
    requires |s| == 1 && AllDigits(s)
    ensures DecimalValue(s) == DigitValue(s[0])
  {
    assert s[..0] == [];
  }

  lemma TwoDigits(s: string)
    requires |s| == 2 && AllDigits(s)
    ensures DecimalValue(s) == 10 * DigitValue(s[0]) + DigitValue(s[1])
  {
    assert s[..1][0] == s[0];
    OneDigit(s[..1]);
  }

  lemma ThreeDigits(s: string)
    requires |s| == 3 && AllDigits(s)
    ensures DecimalValue(s) == 100 * DigitValue(s[0]) + 10 * DigitValue(s[1]) + DigitValue(s[2])
  {
    assert s[..2][0] == s[0] && s[..2][1] == s[1];
    TwoDigits(s[..2]);
  }

  lemma DivTen(n: int, q: int, r: int)
    requires 0 <= r < 10 && n == 10 * q + r
    ensures n / 10 == q && n % 10 == r
  {
  }

  /** The hundreds digit of a three-digit number, through its tens. */
  lemma Hundreds(n: nat)
    requires n < 1000
    ensures n / 100 == n / 10 / 10 && n == 100 * (n / 100) + 10 * (n / 10 % 10) + n % 10
  {
    DivTen(n / 10, n / 100, n / 10 % 10);
  }

  /** The shortest decimal text of `n` reads back as `n`. */
  lemma TextParses(n: Octet)
    ensures ParseOctet(OctetText(n)) == Some(n)
  {
    var t := OctetText(n);
    if n < 10 {
      OneDigit(t);
    } else if n < 100 {
      TwoDigits(t);
      assert DigitValue(t[0]) == n / 10 && DigitValue(t[1]) == n % 10;
    } else {
      ThreeDigits(t);
      Hundreds(n);
      assert DigitValue(t[0]) == n / 100 && DigitValue(t[1]) == n / 10 % 10 && DigitValue(t[2]) == n % 10;
    }
  }

  /** A group that reads as `n` is the shortest decimal text of `n`. */
  lemma ParsedIsText(s: string, n: Octet)
    requires ParseOctet(s) == Some(n)
    ensures s == OctetText(n)
  {
    if |s| == 1 {
      OneDigit(s);
      assert s == [DigitChar(n)];
    } else if |s| == 2 {
      TwoDigits(s);
      var d0, d1 := DigitValue(s[0]), DigitValue(s[1]);
      DivTen(n, d0, d1);
      assert s == [DigitChar(d0), DigitChar(d1)];
    } else {
      ThreeDigits(s);
      var d0, d1, d2 := DigitValue(s[0]), DigitValue(s[1]), DigitValue(s[2]);
      DivTen(n, 10 * d0 + d1, d2);
      DivTen(10 * d0 + d1, d0, d1);
      Hundreds(n);
      assert s == [DigitChar(d0), DigitChar(d1), DigitChar(d2)];
    }
  }

  /** A group reads as `n` exactly when it is the shortest decimal text of `n`. */
  lemma ParseOctetCanonical(s: string, n: Octet)
    ensures ParseOctet(s) == Some(n) <==> s == OctetText(n)
  {
    if s == OctetText(n) { TextParses(n); }
    if ParseOctet(s) == Some(n) { ParsedIsText(s, n); }
  }

  lemma {:induction false} SplitWithoutSep(x: string, sep: char)
    requires sep !in x
    ensures Split(x, sep) == [x]
  {
    if |x| > 0 {
      SplitWithoutSep(x[1..], sep);
      assert [x[0]] + x[1..] == x;
    }
  }

  lemma {:induction false} SplitAtSep(x: string, y: string, sep: char)
    requires sep !in x
    ensures Split(x + [sep] + y, sep) == [x] + Split(y, sep)
  {
    var s := x + [sep] + y;
    if |x| == 0 {
      assert s[1..] == y;
    } else {
      assert s[1..] == x[1..] + [sep] + y;
      SplitAtSep(x[1..], y, sep);
      assert [x[0]] + x[1..] == x;
    }
  }

  /** Splitting keeps every character: the parts glue back into the input, and no part holds `sep`. */
  lemma {:induction false} JoinSplit(s: string, sep: char)
    ensures Join(Split(s, sep), sep) == s
    ensures forall i :: 0 <= i < |Split(s, sep)| ==> sep !in Split(s, sep)[i]
  {
    if |s| > 0 {
      var rest := Split(s[1..], sep);
      JoinSplit(s[1..], sep);
      if s[0] == sep {
        assert [""] + rest == Split(s, sep);
        assert ([""] + rest)[1..] == rest;
        assert s == [sep] + s[1..];
      } else {
        var parts := [[s[0]] + rest[0]] + rest[1..];
        assert parts == Split(s, sep);
        if |rest| == 1 {
          assert Join(parts, sep) == [s[0]] + rest[0];
        } else {
          assert parts[1..] == rest[1..];
          assert Join(parts, sep) == [s[0]] + rest[0] + [sep] + Join(rest[1..], sep);
        }
        assert s == [s[0]] + s[1..];
        forall i | 0 <= i < |parts| ensures sep !in parts[i] {
          if i > 0 { assert parts[i] == rest[i]; }
        }
      }
    }
  }

  /** Splitting undoes joining, when no part holds the separator. */
  lemma {:induction false} SplitJoin(parts: seq<string>, sep: char)
    requires |parts| >= 1
    requires forall i :: 0 <= i < |parts| ==> sep !in parts[i]
    ensures Split(Join(parts, sep), sep) == parts
  {
    if |parts| == 1 {
      SplitWithoutSep(parts[0], sep);
    } else {
      assert forall i :: 0 <= i < |parts| - 1 ==> parts[1..][i] == parts[i + 1];
      SplitJoin(parts[1..], sep);
      SplitAtSep(parts[0], Join(parts[1..], sep), sep);
      assert [parts[0]] + parts[1..] == parts;
    }
  }

  /**
   * The parser accepts exactly the canonical texts: `s` reads as `addr`
   * if and only if `s` is the dotted-decimal text of `addr`.
   */
  lemma ParseIpv4Canonical(s: string, addr: Ipv4Addr)
    ensures ParseIpv4(s) == Some(addr) <==> s == Ipv4Text(addr)
  {
    var texts := [OctetText(addr.a), OctetText(addr.b), OctetText(addr.c), OctetText(addr.d)];
    if s == Ipv4Text(addr) {
      OctetTextDigits(addr.a); OctetTextDigits(addr.b); OctetTextDigits(addr.c); OctetTextDigits(addr.d);
      SplitJoin(texts, '.');
      ParseOctetCanonical(texts[0], addr.a);
      ParseOctetCanonical(texts[1], addr.b);
      ParseOctetCanonical(texts[2], addr.c);
      ParseOctetCanonical(texts[3], addr.d);
    }
    if ParseIpv4(s) == Some(addr) {
      var parts := Split(s, '.');
      ParseOctetCanonical(parts[0], addr.a);
      ParseOctetCanonical(parts[1], addr.b);
      ParseOctetCanonical(parts[2], addr.c);
      ParseOctetCanonical(parts[3], addr.d);
      assert parts == texts;
      JoinSplit(s, '.');
    }
  }
}
