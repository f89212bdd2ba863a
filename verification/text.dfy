/** String helpers with the semantics of the JavaScript built-ins the
    application relies on: `String(n)`, `parseInt(s, 10)`, `padStart(2, '0')`,
    `split(c)`, `join(sep)`, `includes`, `toLowerCase` and `replace(/c/g, d)`.
    Strings are sequences of Unicode scalar values. */
module Text {
  import opened Wrappers

  // ---------------------------------------------------------------------
  // Decimal digits
  // ---------------------------------------------------------------------

  predicate IsDigit(c: char) {
    '0' <= c <= '9'
  }

  predicate AllDigits(s: string) {
    forall i :: 0 <= i < |s| ==> IsDigit(s[i])
  }

  function DigitChar(d: nat): (c: char)
    requires d < 10
    ensures IsDigit(c) && c as int - '0' as int == d
  {
    ('0' as int + d) as char
  }

  /** The number a string of decimal digits denotes (most significant first). */
  function DigitsValue(s: string): nat
    requires AllDigits(s)
    decreases |s|
  {
    if |s| == 0 then 0 else 10 * DigitsValue(s[..|s| - 1]) + (s[|s| - 1] as int - '0' as int)
  }

  /** `String(n)` for a non-negative integer: the shortest decimal rendering. */
  function NatToString(n: nat): (r: string)
    ensures |r| > 0 && AllDigits(r)
    ensures DigitsValue(r) == n
    ensures r[0] == '0' ==> r == "0"
    decreases n
  {
    if n < 10 then [DigitChar(n)]
    else
      var prefix := NatToString(n / 10);
      var r := prefix + [DigitChar(n % 10)];
      assert r[..|r| - 1] == prefix;
      r
  }

  /** `String(i)` for any integer: a minus sign before the magnitude when negative. */
  function IntToString(i: int): (r: string)
    ensures |r| > 0
    ensures i >= 0 <==> IsDigit(r[0])
  {
    if i < 0 then "-" + NatToString(-i) else NatToString(i)
  }

  /** A leading zero does not change the value of a digit string. */
  lemma {:induction false} LeadingZeroValue(s: string)
    requires AllDigits(s)
    ensures AllDigits("0" + s) && DigitsValue("0" + s) == DigitsValue(s)
    decreases |s|
  {
    var t := "0" + s;
    assert AllDigits(t) by {
      forall i | 0 <= i < |t| ensures IsDigit(t[i]) {
        if i > 0 { assert t[i] == s[i - 1]; }
      }
    }
    if |s| > 0 {
      var init := s[..|s| - 1];
      assert t[..|t| - 1] == "0" + init;
      LeadingZeroValue(init);
    }
  }

  // ---------------------------------------------------------------------
  // parseInt(s, 10)
  // ---------------------------------------------------------------------

  /** The characters `parseInt` skips before the number: the ECMAScript
      white-space and line-terminator code points. */
  predicate IsJsWhitespace(c: char) {
    || c == '\t' || c == '\n' || c == '\U{000B}' || c == '\U{000C}' || c == '\r' || c == ' '
    || c == '\U{00A0}' || c == '\U{1680}' || ('\U{2000}' <= c <= '\U{200A}')
    || c == '\U{2028}' || c == '\U{2029}' || c == '\U{202F}' || c == '\U{205F}'
    || c == '\U{3000}' || c == '\U{FEFF}'
  }

  function TrimStart(s: string): (r: string)
    ensures |r| <= |s| && r == s[|s| - |r|..]
    ensures |r| > 0 ==> !IsJsWhitespace(r[0])
    decreases |s|
  {
    if |s| > 0 && IsJsWhitespace(s[0]) then TrimStart(s[1..]) else s
  }

  /** The longest prefix of `s` made of decimal digits. */
  function LeadingDigits(s: string): (r: string)
    ensures AllDigits(r) && |r| <= |s| && r == s[..|r|]
    ensures |r| < |s| ==> !IsDigit(s[|r|])
    decreases |s|
  {
    if |s| == 0 || !IsDigit(s[0]) then "" else [s[0]] + LeadingDigits(s[1..])
  }

  lemma {:induction false} LeadingDigitsOfDigits(ds: string, rest: string)
    requires AllDigits(ds)
    requires |rest| == 0 || !IsDigit(rest[0])
    ensures LeadingDigits(ds + rest) == ds
    decreases |ds|
  {
    if |ds| > 0 {
      assert (ds + rest)[1..] == ds[1..] + rest;
      LeadingDigitsOfDigits(ds[1..], rest);
    } else {
      assert ds + rest == rest;
    }
  }

  /** `parseInt(s, 10)`: skip leading white space, take an optional sign,
      then the longest run of decimal digits. `None` stands for `NaN`
      (no digit where the number should start). */
  function ParseInt(s: string): (r: Option<int>)
    ensures r.None? <==> |LeadingDigits(UnsignedPart(TrimStart(s)))| == 0
  {
    ParseSigned(TrimStart(s))
  }

  /** `parseInt` after the leading white space: the sign and the digits. */
  function ParseSigned(t: string): Option<int> {
    var negative := |t| > 0 && t[0] == '-';
    var ds := LeadingDigits(UnsignedPart(t));
    if |ds| == 0 then None
    else
      var magnitude: int := DigitsValue(ds);
      Some(if negative then -magnitude else magnitude)
  }

  function UnsignedPart(t: string): string {
    if |t| > 0 && (t[0] == '-' || t[0] == '+') then t[1..] else t
  }

  /** `parseInt(String(i), 10) == i`: the rendering and the parser agree. */
  lemma ParseIntOfIntToString(i: int)
    ensures ParseInt(IntToString(i)) == Some(i)
  {
    var s := IntToString(i);
    var ds := NatToString(if i < 0 then -i else i);
    assert !IsJsWhitespace(s[0]);
    assert TrimStart(s) == s;
    assert UnsignedPart(s) == ds by {
      if i < 0 {
        assert s == "-" + ds;
        assert s[1..] == ds;
      }
    }
    LeadingDigitsOfDigits(ds, "");
    assert ds + "" == ds;
  }

  predicate AllJsWhitespace(s: string) {
    forall i :: 0 <= i < |s| ==> IsJsWhitespace(s[i])
  }

  /** The optional sign `parseInt` accepts. */
  predicate IsSign(sign: string) {
    sign == "" || sign == "+" || sign == "-"
  }

  lemma {:induction false} TrimWhitespace(ws: string, t: string)
    requires AllJsWhitespace(ws)
    requires |t| == 0 || !IsJsWhitespace(t[0])
    ensures TrimStart(ws + t) == t
    decreases |ws|
  {
    if |ws| == 0 {
      assert ws + t == t;
    } else {
      assert (ws + t)[1..] == ws[1..] + t;
      TrimWhitespace(ws[1..], t);
    }
  }

  /** Leading white space does not change what `parseInt` reads. */
  lemma ParseIntAfterWhitespace(ws: string, t: string)
    requires AllJsWhitespace(ws)
    requires |t| == 0 || !IsJsWhitespace(t[0])
    ensures ParseInt(ws + t) == ParseInt(t)
  {
    TrimWhitespace(ws, t);
    TrimNothing(t);
    assert ParseInt(ws + t) == ParseSigned(t);
  }

  /** An optional sign, a digit run and anything that does not continue the
      run: `parseInt` gives the run's value, negated after a minus sign. */
  lemma ParseIntOfSigned(sign: string, ds: string, rest: string)
    requires IsSign(sign)
    requires |ds| > 0 && AllDigits(ds)
    requires |rest| == 0 || !IsDigit(rest[0])
    ensures sign == "-" ==> ParseInt(sign + (ds + rest)) == Some(-(DigitsValue(ds) as int))
    ensures sign != "-" ==> ParseInt(sign + (ds + rest)) == Some(DigitsValue(ds))
  {
    var u := ds + rest;
    assert u[0] == ds[0];
    SignThenDigit(sign, u);
    TrimNothing(sign + u);
    assert ParseInt(sign + u) == ParseSigned(sign + u);
    LeadingDigitsOfDigits(ds, rest);
    ParseSignedOfDigits(sign + u, ds);
  }

  /** A sign before a digit: no white space to skip, and the sign is read off. */
  lemma SignThenDigit(sign: string, u: string)
    requires IsSign(sign)
    requires |u| > 0 && IsDigit(u[0])
    ensures !IsJsWhitespace((sign + u)[0])
    ensures UnsignedPart(sign + u) == u
    ensures (sign + u)[0] == '-' <==> sign == "-"
  {
    var t := sign + u;
    assert t[0] == if sign == "" then u[0] else sign[0];
    NumberStartNotWhitespace(t[0]);
    if sign != "" {
      assert t[1..] == u;
    }
  }

  /** After the white space, a sign-stripped digit run `ds` is read as its
      value, negated when the text starts with a minus sign. */
  lemma ParseSignedOfDigits(t: string, ds: string)
    requires |ds| > 0 && LeadingDigits(UnsignedPart(t)) == ds
    ensures |t| > 0 && t[0] == '-' ==> ParseSigned(t) == Some(-(DigitsValue(ds) as int))
    ensures !(|t| > 0 && t[0] == '-') ==> ParseSigned(t) == Some(DigitsValue(ds))
  {
  }

  /** White space, an optional sign and a digit run, followed by anything
      that does not continue the run: `parseInt` gives the run's value,
      negated after a minus sign. */
  lemma ParseIntOfParts(ws: string, sign: string, ds: string, rest: string)
    requires AllJsWhitespace(ws) && IsSign(sign)
    requires |ds| > 0 && AllDigits(ds)
    requires |rest| == 0 || !IsDigit(rest[0])
    ensures sign == "-" ==> ParseInt(ws + sign + ds + rest) == Some(-(DigitsValue(ds) as int))
    ensures sign != "-" ==> ParseInt(ws + sign + ds + rest) == Some(DigitsValue(ds))
  {
    var t := sign + (ds + rest);
    Associate(ws, sign, ds, rest);
    assert t[0] == if sign == "" then ds[0] else sign[0];
    NumberStartNotWhitespace(t[0]);
    ParseIntAfterWhitespace(ws, t);
    ParseIntOfSigned(sign, ds, rest);
  }

  /** Without a digit after the white space and the optional sign,
      `parseInt` gives `NaN`. (With no sign, the text must not go on with more
      white space or a sign, which would be read as part of the prefix.) */
  lemma ParseIntNaN(ws: string, sign: string, rest: string)
    requires AllJsWhitespace(ws) && IsSign(sign)
    requires |rest| == 0 || !IsDigit(rest[0])
    requires sign == "" && |rest| > 0 ==> !IsJsWhitespace(rest[0]) && rest[0] != '+' && rest[0] != '-'
    ensures ParseInt(ws + sign + rest) == None
  {
    var t := sign + rest;
    assert ws + sign + rest == ws + t;
    assert |t| > 0 ==> t[0] == if sign == "" then rest[0] else sign[0];
    if sign != "" {
      NumberStartNotWhitespace(t[0]);
    }
    ParseIntAfterWhitespace(ws, t);
    TrimNothing(t);
    assert UnsignedPart(t) == rest by {
      if sign != "" {
        assert t[1..] == rest;
      }
    }
    LeadingDigitsOfDigits("", rest);
    assert "" + rest == rest;
  }

  lemma NumberStartNotWhitespace(c: char)
    requires IsDigit(c) || c == '+' || c == '-'
    ensures !IsJsWhitespace(c)
  {
  }

  lemma TrimNothing(t: string)
    requires |t| == 0 || !IsJsWhitespace(t[0])
    ensures TrimStart(t) == t
  {
  }

  lemma Associate(a: string, b: string, c: string, d: string)
    ensures a + b + c + d == a + (b + (c + d))
  {
  }

  // ---------------------------------------------------------------------
  // padStart(2, '0')
  // ---------------------------------------------------------------------

  function PadTwo(s: string): (r: string)
    ensures |r| == if |s| >= 2 then |s| else 2
    ensures r[|r| - |s|..] == s
    ensures forall i :: 0 <= i < |r| - |s| ==> r[i] == '0'
  {
    if |s| == 0 then "00" else if |s| == 1 then "0" + s else s
  }

  /** A number below 100, rendered and padded, keeps its value in two digits. */
  lemma PadTwoOfSmall(n: nat)
    requires n < 100
    ensures |PadTwo(NatToString(n))| == 2
    ensures AllDigits(PadTwo(NatToString(n)))
    ensures DigitsValue(PadTwo(NatToString(n))) == n
  {
    var s := NatToString(n);
    if n >= 10 {
      assert s == NatToString(n / 10) + [DigitChar(n % 10)];
    } else {
      LeadingZeroValue(s);
    }
  }

  // ---------------------------------------------------------------------
  // includes / toLowerCase / replace
  // ---------------------------------------------------------------------

  predicate IsPrefix(p: string, s: string) {
    |p| <= |s| && s[..|p|] == p
  }

  /** `s.includes(sub)`: some position of `s` starts a copy of `sub`. */
  predicate Contains(s: string, sub: string)
    decreases |s|
  {
    IsPrefix(sub, s) || (|s| > 0 && Contains(s[1..], sub))
  }

  lemma {:induction false} ContainsAt(s: string, sub: string, i: nat)
    requires i + |sub| <= |s| && s[i..i + |sub|] == sub
    ensures Contains(s, sub)
    decreases i
  {
    if i > 0 {
      assert s[1..][i - 1..i - 1 + |sub|] == sub;
      ContainsAt(s[1..], sub, i - 1);
    }
  }

  /** `includes` finds a string inside any concatenation that holds it. */
  lemma ContainsInfix(a: string, sub: string, b: string)
    ensures Contains(a + sub + b, sub)
  {
    var s := a + sub + b;
    assert s[|a|..|a| + |sub|] == sub;
    ContainsAt(s, sub, |a|);
  }

  lemma ContainsEmpty(s: string)
    ensures Contains(s, "")
  {
    assert IsPrefix("", s);
  }

  /** Text added in front keeps an occurrence. */
  lemma ContainsExtendLeft(a: string, s: string, sub: string)
    requires Contains(s, sub)
    ensures Contains(a + s, sub)
    decreases |a|
  {
    if |a| > 0 {
      ContainsExtendLeft(a[1..], s, sub);
      assert (a + s)[1..] == a[1..] + s;
    } else {
      assert a + s == s;
    }
  }

  /** Text added behind keeps an occurrence. */
  lemma ContainsExtendRight(s: string, b: string, sub: string)
    requires Contains(s, sub)
    ensures Contains(s + b, sub)
    decreases |s|
  {
    if IsPrefix(sub, s) {
      assert (s + b)[..|sub|] == s[..|sub|];
    } else {
      ContainsExtendRight(s[1..], b, sub);
      assert (s + b)[1..] == s[1..] + b;
    }
  }

  lemma ContainsWithin(a: string, s: string, b: string, sub: string)
    requires Contains(s, sub)
    ensures Contains(a + s + b, sub)
  {
    ContainsExtendRight(s, b, sub);
    ContainsExtendLeft(a, s + b, sub);
    assert a + (s + b) == a + s + b;
  }

  /** `toLowerCase` restricted to the ASCII letters. */
  function LowerChar(c: char): char {
    if 'A' <= c <= 'Z' then (c as int + 32) as char else c
  }

  function ToLower(s: string): (r: string)
    ensures |r| == |s|
    ensures forall i :: 0 <= i < |s| ==> r[i] == LowerChar(s[i])
  {
    seq(|s|, i requires 0 <= i < |s| => LowerChar(s[i]))
  }

  /** `s.replace(/from/g, to)` for a single character. */
  function ReplaceChar(s: string, from: char, to: char): (r: string)
    ensures |r| == |s|
    ensures forall i :: 0 <= i < |s| ==> r[i] == if s[i] == from then to else s[i]
  {
    seq(|s|, i requires 0 <= i < |s| => if s[i] == from then to else s[i])
  }

  /** Replacing back undoes a replacement when the target was not already present. */
  lemma ReplaceCharBack(s: string, from: char, to: char)
    requires to !in s
    ensures ReplaceChar(ReplaceChar(s, from, to), to, from) == s
  {
    var r := ReplaceChar(ReplaceChar(s, from, to), to, from);
    forall i | 0 <= i < |s| ensures r[i] == s[i] {
      assert s[i] != to;
    }
  }

  // ---------------------------------------------------------------------
  // split / join
  // ---------------------------------------------------------------------

  /** `s.split(sep)` for a one-character separator; never empty. */
  function Split(s: string, sep: char): (r: seq<string>)
    ensures |r| >= 1
    decreases |s|
  {
    if |s| == 0 then [""]
    else
      var rest := Split(s[1..], sep);
      if s[0] == sep then [""] + rest else [[s[0]] + rest[0]] + rest[1..]
  }

  /** No field of a split holds the separator. */
  lemma {:induction false} SplitFieldsFree(s: string, sep: char, i: nat)
    requires i < |Split(s, sep)|
    ensures sep !in Split(s, sep)[i]
    decreases |s|
  {
    if |s| > 0 {
      var rest := Split(s[1..], sep);
      if s[0] == sep {
        if i > 0 {
          SplitFieldsFree(s[1..], sep, i - 1);
        }
      } else if i == 0 {
        SplitFieldsFree(s[1..], sep, 0);
        assert sep !in [s[0]] + rest[0];
      } else {
        SplitFieldsFree(s[1..], sep, i);
      }
    }
  }

  /** `parts.join(sep)`. */
  function Join(parts: seq<string>, sep: string): string
    decreases |parts|
  {
    if |parts| == 0 then "" else if |parts| == 1 then parts[0] else parts[0] + sep + Join(parts[1..], sep)
  }

  /** Every part of a join occurs in the joined text. */
  lemma {:induction false} JoinContainsParts(parts: seq<string>, sep: string, i: nat)
    requires i < |parts|
    ensures Contains(Join(parts, sep), parts[i])
    decreases |parts|
  {
    if |parts| == 1 {
      ContainsInfix("", parts[0], "");
      assert "" + parts[0] + "" == parts[0];
    } else if i == 0 {
      ContainsInfix("", parts[0], sep + Join(parts[1..], sep));
      assert "" + parts[0] + (sep + Join(parts[1..], sep)) == Join(parts, sep);
    } else {
      JoinContainsParts(parts[1..], sep, i - 1);
      ContainsExtendLeft(parts[0] + sep, Join(parts[1..], sep), parts[i]);
    }
  }

  function Last<T>(xs: seq<T>): T
    requires |xs| > 0
  {
    xs[|xs| - 1]
  }

  /** `f` is the text after the last `sep` of `s`, or all of `s` when it
      holds no `sep`. */
  predicate IsLastField(s: string, sep: char, f: string) {
    && sep !in f
    && |f| <= |s|
    && s[|s| - |f|..] == f
    && (|f| == |s| || s[|s| - |f| - 1] == sep)
  }

  /** A text has one last field. */
  lemma LastFieldUnique(s: string, sep: char, f: string, g: string)
    requires IsLastField(s, sep, f) && IsLastField(s, sep, g)
    ensures f == g
  {
    if |f| != |g| {
      assert false;
    }
  }

  /** The last field of `split(sep)` is the text after the last `sep`. */
  lemma {:induction false} SplitLastField(s: string, sep: char)
    ensures IsLastField(s, sep, Last(Split(s, sep)))
    decreases |s|
  {
    var f := Last(Split(s, sep));
    SplitFieldsFree(s, sep, |Split(s, sep)| - 1);
    if |s| > 0 {
      var t := s[1..];
      var rest := Split(t, sep);
      var g := Last(rest);
      SplitLastField(t, sep);
      if s[0] != sep && |rest| == 1 {
        JoinSplit(t, sep);
        assert g == t;
        assert f == [s[0]] + t == s;
      } else {
        assert f == g;
        if |g| == |t| {
          assert g == t;
          if s[0] != sep {
            SplitWithoutSeparator(t, sep);
            assert false;
          }
        } else {
          assert s[|s| - |g| - 1] == t[|t| - |g| - 1];
        }
        assert s[|s| - |f|..] == t[|t| - |g|..];
      }
    }
  }

  lemma {:induction false} SplitWithoutSeparator(a: string, sep: char)
    requires sep !in a
    ensures Split(a, sep) == [a]
    decreases |a|
  {
    if |a| > 0 {
      SplitWithoutSeparator(a[1..], sep);
      assert [a[0]] + a[1..] == a;
    }
  }

  /** A separator occurrence splits the string into the fields of either side. */
  lemma {:induction false} SplitConcat(a: string, sep: char, b: string)
    ensures Split(a + [sep] + b, sep) == Split(a, sep) + Split(b, sep)
    decreases |a|
  {
    var s := a + [sep] + b;
    if |a| == 0 {
      assert s[1..] == b;
    } else {
      assert s[1..] == a[1..] + [sep] + b;
      SplitConcat(a[1..], sep, b);
    }
  }

  lemma SplitAfterField(a: string, sep: char, b: string)
    requires sep !in a
    ensures Split(a + [sep] + b, sep) == [a] + Split(b, sep)
  {
    SplitConcat(a, sep, b);
    SplitWithoutSeparator(a, sep);
  }

  /** Splitting undoes joining when no field holds the separator. */
  lemma {:induction false} SplitJoin(parts: seq<string>, sep: char)
    requires |parts| >= 1
    requires forall i :: 0 <= i < |parts| ==> sep !in parts[i]
    ensures Split(Join(parts, [sep]), sep) == parts
    decreases |parts|
  {
    if |parts| == 1 {
      SplitWithoutSeparator(parts[0], sep);
    } else {
      SplitJoin(parts[1..], sep);
      SplitAfterField(parts[0], sep, Join(parts[1..], [sep]));
      assert [parts[0]] + parts[1..] == parts;
    }
  }

  /** Joining undoes splitting: no character is lost or invented. */
  lemma {:induction false} JoinSplit(s: string, sep: char)
    ensures Join(Split(s, sep), [sep]) == s
    decreases |s|
  {
    if |s| > 0 {
      var rest := Split(s[1..], sep);
      JoinSplit(s[1..], sep);
      if s[0] == sep {
        assert ([""] + rest)[1..] == rest;
      } else {
        var r := [[s[0]] + rest[0]] + rest[1..];
        if |rest| > 1 {
          assert r[1..] == rest[1..];
        }
      }
    }
  }

  /** The first field of `a + sep + b` is `a` whenever `a` holds no separator. */
  lemma FirstField(a: string, sep: char, b: string)
    requires sep !in a
    ensures Split(a + [sep] + b, sep)[0] == a
  {
    SplitAfterField(a, sep, b);
  }

  /** The last field of `a + sep + b` is `b` whenever `b` holds no separator. */
  lemma LastField(a: string, sep: char, b: string)
    requires sep !in b
    ensures Last(Split(a + [sep] + b, sep)) == b
  {
    SplitWithoutSeparator(b, sep);
    SplitConcat(a, sep, b);
  }
}
