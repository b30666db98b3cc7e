/** String predicates the routes use to validate request fields: JavaScript white space
    and `trim`, the e-mail pattern `^[^\s@]+@[^\s@]+\.[^\s@]+$`, digit stripping for phone
    numbers, the 24-hex-digit ObjectId format, and `parseInt` as the listing route calls it. */
module Text {
  import opened Results

  /** The characters JavaScript's `\s` and `String.prototype.trim` treat as white space
      (the WhiteSpace and LineTerminator productions of ECMA-262). */
  predicate IsSpace(c: char)
  {
    || c == '\t' || c == '\n' || c == '\U{000B}' || c == '\U{000C}' || c == '\r' || c == ' '
    || c == '\U{00A0}' || c == '\U{1680}' || ('\U{2000}' <= c <= '\U{200A}')
    || c == '\U{2028}' || c == '\U{2029}' || c == '\U{202F}' || c == '\U{205F}'
    || c == '\U{3000}' || c == '\U{FEFF}'
  }

  predicate Blank(s: string)
  {
    forall i :: 0 <= i < |s| ==> IsSpace(s[i])
  }

  /** `s.trimStart()`: drops the leading white space and nothing else. */
  function TrimStart(s: string): (r: string)
    ensures |r| <= |s| && r == s[|s| - |r|..]
    ensures Blank(s[..|s| - |r|])
    ensures |r| > 0 ==> !IsSpace(r[0])
  {
    if |s| > 0 && IsSpace(s[0]) then TrimStart(s[1..]) else s
  }

  /** `s.trimEnd()`: drops the trailing white space and nothing else. */
  function TrimEnd(s: string): (r: string)
    ensures |r| <= |s| && r == s[..|r|]
    ensures Blank(s[|r|..])
    ensures |r| > 0 ==> !IsSpace(r[|r| - 1])
  {
    if |s| > 0 && IsSpace(s[|s| - 1]) then TrimEnd(s[..|s| - 1]) else s
  }

  /** `s.trim()`; it is empty exactly when every character of `s` is white space. */
  function Trim(s: string): (r: string)
    ensures r == "" <==> Blank(s)
  {
    var t := TrimStart(s);
    assert |t| > 0 ==> t[0] == s[|s| - |t|];
    assert Blank(s[..|s| - |t|]);
    assert s == s[..|s| - |t|] + t;
    assert TrimEnd(t) == "" ==> Blank(t);
    TrimEnd(t)
  }

  /** The check `!v || !v.trim()`: the field is absent, empty or only white space. */
  predicate MissingText(v: Option<string>)
  {
    v.None? || Trim(v.value) == ""
  }

  /** A character of the class `[^\s@]`. */
  predicate PartChar(c: char)
  {
    !IsSpace(c) && c != '@'
  }

  /** A match of `[^\s@]+`. */
  predicate Part(s: string)
  {
    |s| > 0 && forall i :: 0 <= i < |s| ==> PartChar(s[i])
  }

  /** `^[^\s@]+@[^\s@]+\.[^\s@]+$` matches `s`: it splits as local part, `@`, a first
      domain part, `.`, and a last domain part. */
  predicate EmailPattern(s: string)
  {
    exists i, j :: 0 < i && i + 1 < j && j + 1 < |s| && s[i] == '@' && s[j] == '.'
      && Part(s[..i]) && Part(s[i + 1..j]) && Part(s[j + 1..])
  }

  /** The domain contains a `.` that is neither its first nor its last character. */
  predicate InnerDot(d: string)
  {
    exists k :: 0 < k < |d| - 1 && d[k] == '.'
  }

  /** The e-mail pattern described without the regular expression: no white space, exactly
      one `@`, a non-empty local part, and a domain with an inner `.`. */
  predicate EmailShape(s: string)
  {
    && (forall k :: 0 <= k < |s| ==> !IsSpace(s[k]))
    && exists i :: 0 < i < |s| && s[i] == '@'
         && (forall k :: 0 <= k < |s| && k != i ==> s[k] != '@')
         && InnerDot(s[i + 1..])
  }

  lemma PartOfRange(s: string, lo: int, hi: int)
    requires 0 <= lo < hi <= |s|
    requires forall k :: lo <= k < hi ==> PartChar(s[k])
    ensures Part(s[lo..hi])
  {
    forall m | 0 <= m < hi - lo ensures PartChar(s[lo..hi][m]) {
      assert s[lo..hi][m] == s[lo + m];
    }
  }

  lemma PartChars(s: string, lo: int, hi: int, k: int)
    requires 0 <= lo <= k < hi <= |s|
    requires Part(s[lo..hi])
    ensures PartChar(s[k])
  {
    assert s[k] == s[lo..hi][k - lo];
  }

  lemma PatternToShape(s: string)
    requires EmailPattern(s)
    ensures EmailShape(s)
  {
    var i, j :| 0 < i && i + 1 < j && j + 1 < |s| && s[i] == '@' && s[j] == '.'
      && Part(s[..i]) && Part(s[i + 1..j]) && Part(s[j + 1..]);
    assert s[..i] == s[0..i];
    assert s[j + 1..] == s[j + 1..|s|];
    forall k | 0 <= k < |s| && k != i && k != j ensures PartChar(s[k]) {
      if k < i {
        PartChars(s, 0, i, k);
      } else if k < j {
        PartChars(s, i + 1, j, k);
      } else {
        PartChars(s, j + 1, |s|, k);
      }
    }
    assert !IsSpace(s[i]) && !IsSpace(s[j]) && s[j] != '@';
    var d := s[i + 1..];
    assert d[j - i - 1] == '.';
    assert InnerDot(d);
  }

  lemma ShapeToPattern(s: string)
    requires EmailShape(s)
    ensures EmailPattern(s)
  {
    var i :| 0 < i < |s| && s[i] == '@'
      && (forall k :: 0 <= k < |s| && k != i ==> s[k] != '@')
      && InnerDot(s[i + 1..]);
    var d := s[i + 1..];
    var k :| 0 < k < |d| - 1 && d[k] == '.';
    var j := i + 1 + k;
    assert s[j] == '.';
    assert forall m :: 0 <= m < |s| && m != i ==> PartChar(s[m]);
    PartOfRange(s, 0, i);
    assert s[..i] == s[0..i];
    PartOfRange(s, i + 1, j);
    PartOfRange(s, j + 1, |s|);
    assert s[j + 1..] == s[j + 1..|s|];
    assert 0 < i && i + 1 < j && j + 1 < |s| && s[i] == '@' && s[j] == '.'
      && Part(s[..i]) && Part(s[i + 1..j]) && Part(s[j + 1..]);
  }

  /** The regular expression accepts exactly the strings of the described shape. */
  lemma EmailPatternIffShape(s: string)
    ensures EmailPattern(s) <==> EmailShape(s)
  {
    if EmailPattern(s) {
      PatternToShape(s);
    }
    if EmailShape(s) {
      ShapeToPattern(s);
    }
  }

  /** The check `!v || !emailRegex.test(v)` fails, i.e. the field is a valid e-mail. */
  predicate EmailOk(v: Option<string>)
  {
    v.Some? && EmailPattern(v.value)
  }

  /** `\d` in a JavaScript regular expression: the ASCII digits only. */
  predicate IsDigit(c: char)
  {
    '0' <= c <= '9'
  }

  predicate AllDigits(s: string)
  {
    forall i :: 0 <= i < |s| ==> IsDigit(s[i])
  }

  /** `s.replace(/\D/g, '')`: the digits of `s`, in their order. */
  function StripNonDigits(s: string): (r: string)
    ensures AllDigits(r)
    ensures |r| <= |s|
    ensures AllDigits(s) ==> r == s
    ensures (forall i :: 0 <= i < |s| ==> !IsDigit(s[i])) ==> r == ""
    ensures forall c :: IsDigit(c) ==> multiset(r)[c] == multiset(s)[c]
  {
    if s == [] then []
    else
      assert s == [s[0]] + s[1..];
      if IsDigit(s[0]) then [s[0]] + StripNonDigits(s[1..])
      else StripNonDigits(s[1..])
  }

  /** Stripping commutes with concatenation, so it keeps every digit and their order. */
  lemma {:induction false} StripNonDigitsAppend(a: string, b: string)
    ensures StripNonDigits(a + b) == StripNonDigits(a) + StripNonDigits(b)
  {
    if a == [] {
      assert a + b == b;
    } else {
      assert (a + b)[0] == a[0];
      assert (a + b)[1..] == a[1..] + b;
      StripNonDigitsAppend(a[1..], b);
      if IsDigit(a[0]) {
        calc {
          StripNonDigits(a + b);
          [a[0]] + StripNonDigits(a[1..] + b);
          [a[0]] + (StripNonDigits(a[1..]) + StripNonDigits(b));
          ([a[0]] + StripNonDigits(a[1..])) + StripNonDigits(b);
        }
      }
    }
  }

  /** The check `!v || v.replace(/\D/g, '').length < 10` fails. */
  predicate PhoneOk(v: Option<string>)
  {
    v.Some? && |StripNonDigits(v.value)| >= 10
  }

  predicate IsHexDigit(c: char)
  {
    ('0' <= c <= '9') || ('a' <= c <= 'f') || ('A' <= c <= 'F')
  }

  /** `/^[0-9a-fA-F]{24}$/` matches `s`. */
  predicate ObjectIdText(s: string)
  {
    |s| == 24 && forall i :: 0 <= i < |s| ==> IsHexDigit(s[i])
  }

  /** The form MongoDB stores an ObjectId's hexadecimal text in. */
  predicate CanonicalId(s: string)
  {
    |s| == 24 && forall i :: 0 <= i < |s| ==> ('0' <= s[i] <= '9' || 'a' <= s[i] <= 'f')
  }

  function LowerChar(c: char): char
  {
    if 'A' <= c <= 'Z' then (c as int + 32) as char else c
  }

  function Lower(s: string): (r: string)
    ensures |r| == |s|
    ensures forall i :: 0 <= i < |s| ==> r[i] == LowerChar(s[i])
  {
    if s == [] then [] else [LowerChar(s[0])] + Lower(s[1..])
  }

  /** Casting accepted id text to an ObjectId: the canonical form, and casting twice
      changes nothing; ids that differ only in letter case cast alike. */
  lemma CastCanonical(s: string, t: string)
    requires ObjectIdText(s)
    ensures CanonicalId(Lower(s))
    ensures ObjectIdText(Lower(s)) && Lower(Lower(s)) == Lower(s)
    ensures Lower(t) == s ==> Lower(s) == s
    // two spellings that agree up to letter case cast to the same id
    ensures |t| == |s| && (forall i :: 0 <= i < |s| ==> LowerChar(t[i]) == LowerChar(s[i])) ==>
              Lower(t) == Lower(s)
  {
    var l := Lower(s);
    assert forall i :: 0 <= i < 24 ==> l[i] == LowerChar(s[i]);
    LowerTwice(s);
    LowerFixes(s, t);
    LowerAgrees(s, t);
  }

  lemma LowerTwice(s: string)
    ensures Lower(Lower(s)) == Lower(s)
  {
    assert forall i :: 0 <= i < |s| ==> Lower(Lower(s))[i] == Lower(s)[i];
  }

  lemma LowerFixes(s: string, t: string)
    ensures Lower(t) == s ==> Lower(s) == s
  {
    if Lower(t) == s {
      assert forall i :: 0 <= i < |s| ==> s[i] == LowerChar(t[i]);
      assert forall i :: 0 <= i < |s| ==> Lower(s)[i] == s[i];
    }
  }

  lemma LowerAgrees(s: string, t: string)
    ensures |t| == |s| && (forall i :: 0 <= i < |s| ==> LowerChar(t[i]) == LowerChar(s[i])) ==>
              Lower(t) == Lower(s)
  {
    if |t| == |s| && (forall i :: 0 <= i < |s| ==> LowerChar(t[i]) == LowerChar(s[i])) {
      assert forall i :: 0 <= i < |s| ==> Lower(t)[i] == Lower(s)[i];
    }
  }

  // ---------------------------------------------------------------------------
  // parseInt(string) with no radix argument (section 19.2.5 of ECMA-262)

  function DigitValue(c: char): nat
  {
    if '0' <= c <= '9' then c as int - '0' as int
    else if 'a' <= c <= 'z' then c as int - 'a' as int + 10
    else if 'A' <= c <= 'Z' then c as int - 'A' as int + 10
    else 36
  }

  predicate RadixDigit(c: char, radix: nat)
  {
    DigitValue(c) < radix
  }

  /** The longest prefix of `s` made of digits of `radix`. */
  function DigitPrefix(s: string, radix: nat): (r: string)
    ensures |r| <= |s| && r == s[..|r|]
    ensures forall i :: 0 <= i < |r| ==> RadixDigit(r[i], radix)
    ensures |r| < |s| ==> !RadixDigit(s[|r|], radix)
  {
    if s != [] && RadixDigit(s[0], radix) then [s[0]] + DigitPrefix(s[1..], radix) else []
  }

  /** The value of a digit string, most significant digit first. */
  function DigitsValue(s: string, radix: nat): nat
    requires radix == 10 || radix == 16
  {
    if s == [] then 0
    else
      var high := DigitsValue(s[..|s| - 1], radix);
      (if radix == 16 then 16 * high else 10 * high) + DigitValue(s[|s| - 1])
  }

  /** `parseInt(v)`; `None` stands for NaN, and an absent parameter parses to NaN. Leading
      white space is skipped (`ParseIntSkipsSpace`), so blank text has no digit to read. */
  function ParseInt(v: Option<string>): (r: Option<int>)
    ensures v.None? ==> r.None?
    ensures v.Some? && Blank(v.value) ==> r.None?
  {
    if v.None? then None else ParseSigned(TrimStart(v.value))
  }

  /** An optional sign, then the unsigned numeral: NaN exactly when the numeral is, and
      otherwise a number whose magnitude is the numeral's and which is negative only
      after a `-`. */
  function ParseSigned(t: string): (r: Option<int>)
    ensures var u := if |t| > 0 && (t[0] == '-' || t[0] == '+') then t[1..] else t;
            && (r.None? <==> ParseUnsigned(u).None?)
            && (r.Some? ==> && (r.value < 0 ==> t[0] == '-')
                            && (|t| > 0 && t[0] == '-' ==> r.value <= 0)
                            && (if r.value < 0 then -r.value else r.value) == ParseUnsigned(u).value)
  {
    var negative := |t| > 0 && t[0] == '-';
    var u := if |t| > 0 && (t[0] == '-' || t[0] == '+') then t[1..] else t;
    match ParseUnsigned(u)
    case None => None
    case Some(n) => Some(if negative then -(n as int) else n)
  }

  /** An optional `0x` or `0X` prefix selecting radix 16, then the longest digit prefix;
      NaN exactly when no digit of the radix follows the prefix. */
  function ParseUnsigned(u: string): (r: Option<nat>)
    ensures var hex := |u| >= 2 && u[0] == '0' && (u[1] == 'x' || u[1] == 'X');
            var rest := if hex then u[2..] else u;
            var radix := if hex then 16 else 10;
            && (r.None? <==> (rest == [] || !RadixDigit(rest[0], radix)))
            && (r.Some? ==> r.value == DigitsValue(DigitPrefix(rest, radix), radix))
  {
    var hex := |u| >= 2 && u[0] == '0' && (u[1] == 'x' || u[1] == 'X');
    var radix := if hex then 16 else 10;
    var digits := DigitPrefix(if hex then u[2..] else u, radix);
    if digits == [] then None else Some(DigitsValue(digits, radix))
  }

  /** White space before the numeral changes nothing `parseInt` reads. */
  lemma {:induction false} ParseIntSkipsSpace(w: string, s: string)
    requires Blank(w)
    ensures ParseInt(Some(w + s)) == ParseInt(Some(s))
  {
    TrimStartSkips(w, s);
  }

  lemma {:induction false} TrimStartSkips(w: string, s: string)
    requires Blank(w)
    ensures TrimStart(w + s) == TrimStart(s)
  {
    if w != [] {
      assert (w + s)[0] == w[0] && IsSpace(w[0]);
      assert (w + s)[1..] == w[1..] + s;
      TrimStartSkips(w[1..], s);
    } else {
      assert w + s == s;
    }
  }

  lemma HexNumeral()
    ensures ParseUnsigned("0x1A") == Some(26)
  {
    assert "0x1A"[2..] == "1A";
    assert DigitPrefix("1A", 16) == "1A" by {
      assert "1A"[1..] == "A";
      assert DigitPrefix("A", 16) == "A";
    }
    assert "1A"[..1] == "1";
    assert DigitsValue("1", 16) == 1 by { assert "1"[..0] == ""; }
  }

  /** `parseInt` reads `0x` as a radix-16 prefix, and is NaN when no digit follows it. */
  lemma ParseIntHex()
    ensures ParseInt(Some("0x1A")) == Some(26)
    ensures ParseInt(Some("0x")) == None
  {
    HexNumeral();
    TrimStartKeeps("0x1A");
    UnsignedOnly("0x1A");
    TrimStartKeeps("0x");
    UnsignedOnly("0x");
  }

  lemma TwelveNumeral()
    ensures ParseUnsigned("12abc") == Some(12)
  {
    assert DigitPrefix("12abc", 10) == "12" by {
      assert "12abc"[1..] == "2abc";
      assert "2abc"[1..] == "abc";
    }
    assert "12"[..1] == "1";
    assert DigitsValue("1", 10) == 1 by { assert "1"[..0] == ""; }
  }

  lemma MinusTwelve()
    ensures ParseSigned("-12abc") == Some(-12)
  {
    assert "-12abc"[1..] == "12abc";
    TwelveNumeral();
  }

  lemma BlankBeforeMinus()
    ensures TrimStart(" -12abc") == "-12abc"
  {
    assert " " + "-12abc" == " -12abc";
    TrimStartSkips(" ", "-12abc");
    assert !IsSpace("-12abc"[0]);
  }

  /** Leading blanks and a minus sign are read, and reading stops at the first non-digit. */
  lemma ParseIntSigned()
    ensures ParseInt(Some(" -12abc")) == Some(-12)
  {
    BlankBeforeMinus();
    MinusTwelve();
  }

  lemma MinusZero()
    ensures ParseSigned("-0") == Some(0)
  {
    assert "-0"[1..] == "0";
    UnsignedNumeral("0");
    assert DigitsValue("0", 10) == 0 by { assert "0"[..0] == ""; }
  }

  lemma PlusMinus()
    ensures ParseSigned("+-5") == None
  {
    assert "+-5"[1..] == "-5";
    assert DigitPrefix("-5", 10) == "";
  }

  /** Negative zero reads as zero, and a second sign leaves no digit to read. */
  lemma ParseIntSigns()
    ensures ParseInt(Some("-0")) == Some(0)
    ensures ParseInt(Some("+-5")) == None
  {
    assert !IsSpace("-0"[0]) && !IsSpace("+-5"[0]);
    MinusZero();
    PlusMinus();
  }

  /** Empty text is NaN, and an exponent is not part of the integer read. */
  lemma ParseIntStops()
    ensures ParseInt(Some("")) == None
    ensures ParseInt(Some("1e3")) == Some(1)
  {
    TrimStartKeeps("1e3");
    UnsignedOnly("1e3");
    assert DigitPrefix("1e3", 10) == "1" by {
      assert "1e3"[1..] == "e3";
    }
    assert DigitsValue("1", 10) == 1 by { assert "1"[..0] == ""; }
  }

  function DigitChar(d: nat): char
    requires d < 10
  {
    ('0' as int + d) as char
  }

  /** The decimal numeral of `n`, as `String(n)` writes it. */
  function Decimal(n: nat): (r: string)
    ensures |r| > 0 && AllDigits(r)
    ensures r[0] == '0' ==> n == 0 && |r| == 1
  {
    if n < 10 then [DigitChar(n)] else Decimal(n / 10) + [DigitChar(n % 10)]
  }

  lemma {:induction false} DecimalValue(n: nat)
    ensures DigitsValue(Decimal(n), 10) == n
  {
    if n >= 10 {
      var s := Decimal(n);
      assert s[..|s| - 1] == Decimal(n / 10);
      DecimalValue(n / 10);
    }
  }

  lemma {:induction false} DigitPrefixOfDigits(s: string)
    requires AllDigits(s)
    ensures DigitPrefix(s, 10) == s
  {
    if s != [] {
      DigitPrefixOfDigits(s[1..]);
    }
  }

  /** `parseInt` reads back every decimal numeral as the number it denotes. */
  lemma ParseIntDecimal(n: nat)
    ensures ParseInt(Some(Decimal(n))) == Some(n)
  {
    var s := Decimal(n);
    NumeralParses(s);
    DecimalValue(n);
  }

  /** A digit string without a hexadecimal prefix parses to its value. */
  lemma NumeralParses(s: string)
    requires |s| > 0 && AllDigits(s) && (s[0] == '0' ==> |s| == 1)
    ensures ParseInt(Some(s)) == Some(DigitsValue(s, 10))
  {
    assert IsDigit(s[0]);
    TrimStartKeeps(s);
    UnsignedNumeral(s);
    UnsignedOnly(s);
  }

  lemma TrimStartKeeps(s: string)
    requires |s| > 0 && IsDigit(s[0])
    ensures TrimStart(s) == s
  {
    assert !IsSpace(s[0]);
  }

  lemma UnsignedNumeral(s: string)
    requires |s| > 0 && AllDigits(s) && (s[0] == '0' ==> |s| == 1)
    ensures ParseUnsigned(s) == Some(DigitsValue(s, 10))
  {
    assert |s| >= 2 ==> s[0] != '0';
    DigitPrefixOfDigits(s);
  }

  lemma UnsignedOnly(s: string)
    requires |s| > 0 && IsDigit(s[0])
    ensures ParseSigned(s) == ParseUnsigned(s)
  {
    assert s[0] != '-' && s[0] != '+';
  }
}
