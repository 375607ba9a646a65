/**
 Strings as sequences of Unicode scalar values: their length in UTF-8, the decimal
 form of a counter, and the code-point order in which Python sorts them.
 */
module Text {
  import opened Sequences

  // ----- UTF-8 length ---------------------------------------------------

  /** Bytes taken by one scalar value in UTF-8. */
  function CharBytes(c: char): nat {
    var code := c as int;
    if code < 0x80 then 1
    else if code < 0x800 then 2
    else if code < 0x1_0000 then 3
    else 4
  }

  /** The bytes themselves, as section 3 of RFC 3629 gives them. */
  function Utf8(c: char): seq<nat> {
    var code := c as int;
    if code < 0x80 then [code]
    else if code < 0x800 then [0xc0 + code / 0x40, 0x80 + code % 0x40]
    else if code < 0x1_0000 then [0xe0 + code / 0x1000, 0x80 + code / 0x40 % 0x40, 0x80 + code % 0x40]
    else [0xf0 + code / 0x4_0000, 0x80 + code / 0x1000 % 0x40, 0x80 + code / 0x40 % 0x40, 0x80 + code % 0x40]
  }

  /** The first byte of a sequence tells its length, and the others cannot be a first byte. */
  lemma Utf8Shape(c: char)
    ensures |Utf8(c)| == CharBytes(c)
    ensures var b := Utf8(c)[0];
            match CharBytes(c)
            case 1 => b < 0x80
            case 2 => 0xc2 <= b < 0xe0
            case 3 => 0xe0 <= b < 0xf0
            case _ => 0xf0 <= b <= 0xf4
    ensures forall i :: 1 <= i < |Utf8(c)| ==> 0x80 <= Utf8(c)[i] < 0xc0
  {
  }

  /** Bytes taken by a text in UTF-8, which is what Go's len reports. */
  function ByteLen(s: string): nat {
    if s == "" then 0 else ByteLen(s[..|s| - 1]) + CharBytes(s[|s| - 1])
  }

  lemma {:induction false} ByteLenConcat(a: string, b: string)
    ensures ByteLen(a + b) == ByteLen(a) + ByteLen(b)
  {
    if b == "" {
      assert a + b == a;
    } else {
      var n := |b| - 1;
      assert (a + b)[..|a + b| - 1] == a + b[..n];
      ByteLenConcat(a, b[..n]);
    }
  }

  /** A text of ASCII characters takes one byte for each. */
  lemma {:induction false} ByteLenAscii(s: string)
    requires forall i :: 0 <= i < |s| ==> s[i] < '\U{0080}'
    ensures ByteLen(s) == |s|
  {
    if s == "" {
    } else {
      ByteLenAscii(s[..|s| - 1]);
    }
  }

  // ----- Decimal counters -----------------------------------------------

  function Digit(d: nat): char
    requires d < 10
  {
    ('0' as int + d) as char
  }

  function Decimal(n: nat): (s: string)
    ensures s != ""
    ensures forall i :: 0 <= i < |s| ==> '0' <= s[i] <= '9'
  {
    if n < 10 then [Digit(n)] else Decimal(n / 10) + [Digit(n % 10)]
  }

  lemma DecimalExamples()
    ensures Decimal(0) == "0" && Decimal(7) == "7" && Decimal(120) == "120" && Decimal(2000) == "2000"
  {
    assert Decimal(12) == "12" && Decimal(20) == "20" && Decimal(200) == "200";
  }

  /** A larger counter never prints shorter. */
  lemma {:induction false} DecimalLengthMonotone(m: nat, n: nat)
    requires m <= n
    ensures |Decimal(m)| <= |Decimal(n)|
  {
    if 10 <= m {
      DecimalLengthMonotone(m / 10, n / 10);
    }
  }

  /** Reads a decimal numeral, leading zeros allowed, as Python's int does. */
  function ParseDecimal(s: string): nat
    requires forall i :: 0 <= i < |s| ==> '0' <= s[i] <= '9'
  {
    if s == "" then 0
    else ParseDecimal(s[..|s| - 1]) * 10 + (s[|s| - 1] as int - '0' as int)
  }

  lemma {:induction false} ParseDecimalOfDecimal(n: nat)
    ensures ParseDecimal(Decimal(n)) == n
  {
    var s := Decimal(n);
    if n < 10 {
      assert s[..0] == "";
    } else {
      assert s[..|s| - 1] == Decimal(n / 10);
      ParseDecimalOfDecimal(n / 10);
    }
  }

  lemma DecimalInjective(m: nat, n: nat)
    requires Decimal(m) == Decimal(n)
    ensures m == n
  {
    ParseDecimalOfDecimal(m);
    ParseDecimalOfDecimal(n);
  }

  // ----- Code-point order -----------------------------------------------

  /** Python's `a <= b` on strings. */
  predicate AtMost(a: string, b: string) {
    if a == "" then true
    else if b == "" then false
    else if a[0] != b[0] then a[0] < b[0]
    else AtMost(a[1..], b[1..])
  }

  /** A prefix comes first; otherwise the first difference decides. */
  lemma {:induction false} AtMostMeaning(a: string, b: string)
    ensures AtMost(a, b) <==>
            a <= b || exists k :: 0 <= k < |a| && k < |b| && a[..k] == b[..k] && a[k] < b[k]
  {
    if a == "" || b == "" {
    } else if a[0] != b[0] {
      if a[0] < b[0] {
        assert a[..0] == b[..0];
      }
    } else {
      AtMostMeaning(a[1..], b[1..]);
      assert a == [a[0]] + a[1..] && b == [b[0]] + b[1..];
      if k :| 0 <= k < |a[1..]| && k < |b[1..]| && a[1..][..k] == b[1..][..k] && a[1..][k] < b[1..][k] {
        assert a[..k + 1] == [a[0]] + a[1..][..k] && b[..k + 1] == [b[0]] + b[1..][..k];
        assert a[k + 1] < b[k + 1];
      }
      if k :| 0 <= k < |a| && k < |b| && a[..k] == b[..k] && a[k] < b[k] {
        assert a[..k] == [a[0]] + a[1..][..k - 1] && b[..k] == [b[0]] + b[1..][..k - 1];
        assert a[1..][..k - 1] == a[..k][1..] && b[1..][..k - 1] == b[..k][1..];
        assert a[1..][k - 1] < b[1..][k - 1];
      }
    }
  }

  lemma {:induction false} AtMostTotal(a: string, b: string)
    ensures AtMost(a, b) || AtMost(b, a)
  {
    if a == "" || b == "" {
    } else {
      AtMostTotal(a[1..], b[1..]);
    }
  }

  lemma {:induction false} AtMostAntisymmetric(a: string, b: string)
    requires AtMost(a, b) && AtMost(b, a)
    ensures a == b
  {
    if a == "" || b == "" {
    } else {
      AtMostAntisymmetric(a[1..], b[1..]);
    }
  }

  lemma {:induction false} AtMostTransitive(a: string, b: string, c: string)
    requires AtMost(a, b) && AtMost(b, c)
    ensures AtMost(a, c)
  {
    if a != "" && b != "" && c != "" && a[0] == b[0] == c[0] {
      AtMostTransitive(a[1..], b[1..], c[1..]);
    }
  }

  // ----- sorted() -------------------------------------------------------

  ghost predicate Ascending(s: seq<string>) {
    forall i, j :: 0 <= i < j < |s| ==> AtMost(s[i], s[j])
  }

  function Inserted(x: string, s: seq<string>): seq<string> {
    if s == [] then [x]
    else if AtMost(x, s[0]) then [x] + s
    else [s[0]] + Inserted(x, s[1..])
  }

  /** Python's `sorted` on strings. */
  function Sorted(s: seq<string>): seq<string> {
    if s == [] then [] else Inserted(s[0], Sorted(s[1..]))
  }

  lemma {:induction false} InsertedAscending(x: string, s: seq<string>)
    requires Ascending(s)
    ensures Ascending(Inserted(x, s))
    ensures multiset(Inserted(x, s)) == multiset{x} + multiset(s)
  {
    if s == [] {
    } else if AtMost(x, s[0]) {
      forall j | 0 <= j < |s| ensures AtMost(x, s[j]) {
        if j > 0 { AtMostTransitive(x, s[0], s[j]); }
      }
    } else {
      AtMostTotal(x, s[0]);
      InsertedAscending(x, s[1..]);
      var t := Inserted(x, s[1..]);
      assert s == [s[0]] + s[1..];
      forall j | 0 <= j < |t| ensures AtMost(s[0], t[j]) {
        assert t[j] in multiset(t);
        assert t[j] == x || t[j] in multiset(s[1..]);
      }
    }
  }

  /** Sorting yields an ascending rearrangement. */
  lemma {:induction false} SortedIsAscending(s: seq<string>)
    ensures Ascending(Sorted(s))
    ensures multiset(Sorted(s)) == multiset(s)
    ensures |Sorted(s)| == |s|
  {
    if s != [] {
      SortedIsAscending(s[1..]);
      InsertedAscending(s[0], Sorted(s[1..]));
      assert s == [s[0]] + s[1..];
    }
    assert |multiset(Sorted(s))| == |multiset(s)|;
  }

  /** Sorting distinct strings keeps them distinct and the same. */
  lemma SortedDistinct(s: seq<string>)
    requires Distinct(s)
    ensures Distinct(Sorted(s)) && Elements(Sorted(s)) == Elements(s)
    ensures forall x :: x in Sorted(s) <==> x in s
  {
    SortedIsAscending(s);
    forall x ensures x in Sorted(s) <==> x in s {
      assert x in multiset(Sorted(s)) <==> x in multiset(s);
    }
    DistinctCount(s);
    assert Elements(Sorted(s)) == Elements(s);
    CountBound(Sorted(s));
  }
}
