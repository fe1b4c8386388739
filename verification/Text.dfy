/** Byte strings: decimal and hexadecimal spellings, length-framed parts, and the fact that
    every reader of a framed text depends on: a frame can be read back in one way only. */
module Text {

  predicate IsDigit(c: char) {
    '0' <= c <= '9'
  }

  predicate AllDigits(s: string) {
    forall i | 0 <= i < |s| :: IsDigit(s[i])
  }

  predicate NoDigits(s: string) {
    forall i | 0 <= i < |s| :: !IsDigit(s[i])
  }

  lemma Regroup<T>(p: seq<T>, q: seq<T>, r: seq<T>)
    ensures (p + q) + r == p + (q + r)
  {
  }

  predicate StartsWith(s: string, prefix: string) {
    |prefix| <= |s| && s[..|prefix|] == prefix
  }

  function Digit(d: nat): (c: char)
    requires d < 10
    ensures IsDigit(c) && c as int == '0' as int + d
  {
    '0' + d as char
  }

  /** std::to_string of an unsigned number. */
  function Decimal(n: nat): (s: string)
    ensures |s| > 0 && AllDigits(s)
  {
    if n < 10 then [Digit(n)] else Decimal(n / 10) + [Digit(n % 10)]
  }

  /** The number a string of digits spells in base ten. */
  function DecimalValue(s: string): nat
    requires AllDigits(s)
  {
    if s == "" then 0
    else 10 * DecimalValue(s[..|s| - 1]) + (s[|s| - 1] as int - '0' as int)
  }

  lemma {:induction false} DecimalRoundTrip(n: nat)
    ensures DecimalValue(Decimal(n)) == n
  {
    if n >= 10 {
      DecimalRoundTrip(n / 10);
      assert Decimal(n)[..|Decimal(n)| - 1] == Decimal(n / 10);
    } else {
      assert Decimal(n)[..0] == "";
    }
  }

  lemma DecimalInjective(m: nat, n: nat)
    requires Decimal(m) == Decimal(n)
    ensures m == n
  {
    DecimalRoundTrip(m);
    DecimalRoundTrip(n);
  }

  /** Two texts that begin with a run of p-characters, each run ended by a character
      outside p, have the same run. */
  lemma SpanUnique(p: char -> bool, a: string, x: string, b: string, y: string)
    requires forall i | 0 <= i < |a| :: p(a[i])
    requires forall i | 0 <= i < |b| :: p(b[i])
    requires x != "" && !p(x[0]) && y != "" && !p(y[0])
    ensures a + x == b + y ==> a == b && x == y
  {
    if |a| < |b| {
      assert (a + x)[|a|] == x[0] && (b + y)[|a|] == b[|a|];
    } else if |b| < |a| {
      assert (a + x)[|b|] == a[|b|] && (b + y)[|b|] == y[0];
    } else if a + x == b + y {
      SplitSameLength(a, x, b, y);
    }
  }

  lemma SplitSameLength(a: string, x: string, b: string, y: string)
    requires a + x == b + y
    requires |a| == |b|
    ensures a == b && x == y
  {
    assert a == (a + x)[..|a|] && x == (a + x)[|a|..];
    assert b == (b + y)[..|b|] && y == (b + y)[|b|..];
  }

  /** A tagged part: tag, length, ':', the value, ';'. */
  function Framed(tag: string, value: string): (s: string)
    ensures |s| > |tag| + |value|
  {
    tag + Decimal(|value|) + ":" + value + ";"
  }

  /** An untagged frame is written piece by piece. */
  method AppendFrame(text: string, part: string) returns (longer: string)
    ensures longer == text + Framed("", part)
  {
    longer := text + Decimal(|part|);
    longer := longer + ":";
    longer := longer + part;
    longer := longer + ";";
  }

  /** One frame in front of any rest determines its tag, its value and the rest. */
  lemma FramedUnique(tag1: string, v1: string, rest1: string, tag2: string, v2: string, rest2: string)
    requires NoDigits(tag1) && NoDigits(tag2)
    requires Framed(tag1, v1) + rest1 == Framed(tag2, v2) + rest2
    ensures tag1 == tag2 && v1 == v2 && rest1 == rest2
  {
    var n1, n2 := Decimal(|v1|), Decimal(|v2|);
    var t1, t2 := ":" + (v1 + ";" + rest1), ":" + (v2 + ";" + rest2);
    assert Framed(tag1, v1) + rest1 == tag1 + (n1 + t1);
    assert Framed(tag2, v2) + rest2 == tag2 + (n2 + t2);
    SpanUnique(c => !IsDigit(c), tag1, n1 + t1, tag2, n2 + t2);
    SpanUnique(c => IsDigit(c), n1, t1, n2, t2);
    DecimalInjective(|v1|, |v2|);
    assert t1[1..] == v1 + (";" + rest1) && t2[1..] == v2 + (";" + rest2);
    SplitSameLength(v1, ";" + rest1, v2, ";" + rest2);
    assert (";" + rest1)[1..] == rest1 && (";" + rest2)[1..] == rest2;
  }

  /** A run of parts that all carry one tag, in front of a rest. */
  function FramedAll(tag: string, values: seq<string>, rest: string): string {
    if values == [] then rest else Framed(tag, values[0]) + FramedAll(tag, values[1..], rest)
  }

  /** A run of parts under one tag, ended by a part under another tag, can be split in one way only. */
  lemma {:induction false} FramedAllUnique(tag: string, values1: seq<string>, values2: seq<string>,
                                           endTag: string, last1: string, last2: string,
                                           rest1: string, rest2: string)
    requires NoDigits(tag) && NoDigits(endTag) && tag != endTag
    requires FramedAll(tag, values1, Framed(endTag, last1) + rest1)
          == FramedAll(tag, values2, Framed(endTag, last2) + rest2)
    ensures values1 == values2 && last1 == last2 && rest1 == rest2
  {
    var end1, end2 := Framed(endTag, last1) + rest1, Framed(endTag, last2) + rest2;
    var tag1, v1, r1 := endTag, last1, rest1;
    if values1 != [] {
      tag1, v1, r1 := tag, values1[0], FramedAll(tag, values1[1..], end1);
    }
    var tag2, v2, r2 := endTag, last2, rest2;
    if values2 != [] {
      tag2, v2, r2 := tag, values2[0], FramedAll(tag, values2[1..], end2);
    }
    FramedUnique(tag1, v1, r1, tag2, v2, r2);
    if values1 != [] {
      FramedAllUnique(tag, values1[1..], values2[1..], endTag, last1, last2, rest1, rest2);
      assert values1 == [values1[0]] + values1[1..] && values2 == [values2[0]] + values2[1..];
    }
  }

  /** A byte string: every character is one octet. */
  predicate IsBytes(s: string) {
    forall i | 0 <= i < |s| :: s[i] as int < 256
  }

  predicate IsHexDigit(c: char) {
    IsDigit(c) || 'a' <= c <= 'f'
  }

  function HexDigit(d: nat): (c: char)
    requires d < 16
    ensures IsHexDigit(c)
    ensures c as int == if d < 10 then 48 + d else 87 + d
  {
    if d < 10 then '0' + d as char else 'a' + (d - 10) as char
  }

  /** Two lower-case hexadecimal digits for each byte. */
  function Hex(s: string): (h: string)
    requires IsBytes(s)
    ensures |h| == 2 * |s|
    ensures forall i | 0 <= i < |h| :: IsHexDigit(h[i])
  {
    if s == "" then ""
    else [HexDigit(s[0] as int / 16), HexDigit(s[0] as int % 16)] + Hex(s[1..])
  }

  lemma {:induction false} HexInjective(s: string, t: string)
    requires IsBytes(s) && IsBytes(t)
    requires Hex(s) == Hex(t)
    ensures s == t
  {
    if s == "" || t == "" {
    } else {
      var h, g := Hex(s), Hex(t);
      assert h[0] == g[0] && h[1] == g[1];
      assert h[2..] == Hex(s[1..]) && g[2..] == Hex(t[1..]);
      HexInjective(s[1..], t[1..]);
      assert s == [s[0]] + s[1..] && t == [t[0]] + t[1..];
    }
  }

  lemma {:induction false} HexAppend(s: string, t: string)
    requires IsBytes(s) && IsBytes(t)
    ensures Hex(s + t) == Hex(s) + Hex(t)
  {
    if s == "" {
      assert s + t == t;
    } else {
      HexAppend(s[1..], t);
      assert (s + t)[1..] == s[1..] + t;
    }
  }

  /** The hex loop shared by the two mangled forms: a leading letter, then two digits a byte. */
  method HexName(letter: char, text: string) returns (result: string)
    requires IsBytes(text)
    ensures result == [letter] + Hex(text)
  {
    result := [letter];
    for i := 0 to |text|
      invariant result == [letter] + Hex(text[..i])
    {
      HexAppend(text[..i], [text[i]]);
      assert text[..i + 1] == text[..i] + [text[i]];
      assert Hex([text[i]]) == [HexDigit(text[i] as int / 16), HexDigit(text[i] as int % 16)];
      result := result + [HexDigit(text[i] as int / 16)];
      result := result + [HexDigit(text[i] as int % 16)];
    }
    assert text[..|text|] == text;
  }
}
