/** The JavaScript string primitives the core relies on: `trim`,
    `startsWith`, `split(' ')` and `parseInt(x, 10)`, each with a partner
    that pins down what it computes. */
module Strings {
  import opened Common

  /** White space removed by `String.prototype.trim` (the ASCII members of
      that class; the Unicode space separators are not modelled). */
  predicate IsSpace(c: char)
  {
    c == ' ' || c == '\t' || c == '\n' || c == '\r' || c == '\U{0B}' || c == '\U{0C}'
  }

  predicate AllSpace(s: string)
  {
    forall k :: 0 <= k < |s| ==> IsSpace(s[k])
  }

  /** Drops the leading white space: the result is the longest suffix of `s`
      that does not start with white space. */
  function TrimStart(s: string): (r: string)
    ensures |r| <= |s| && r == s[|s| - |r|..]
    ensures AllSpace(s[..|s| - |r|])
    ensures r != [] ==> !IsSpace(r[0])
  {
    if |s| > 0 && IsSpace(s[0]) then
      var r := TrimStart(s[1..]);
      assert s[..|s| - |r|] == [s[0]] + s[1..][..|s[1..]| - |r|];
      r
    else
      s
  }

  /** Drops the trailing white space: the result is the longest prefix of
      `s` that does not end with white space. */
  function TrimEnd(s: string): (r: string)
    ensures |r| <= |s| && r == s[..|r|]
    ensures AllSpace(s[|r|..])
    ensures r != [] ==> !IsSpace(r[|r| - 1])
  {
    if |s| > 0 && IsSpace(s[|s| - 1]) then
      var r := TrimEnd(s[..|s| - 1]);
      assert s[|r|..] == s[..|s| - 1][|r|..] + [s[|s| - 1]];
      r
    else
      s
  }

  /** `String.prototype.trim`. */
  function Trim(s: string): (r: string)
  {
    TrimEnd(TrimStart(s))
  }

  /** `s` is `r` with white space on either side, `r` starting at `i`. */
  predicate PaddedAt(s: string, i: int, r: string)
  {
    0 <= i <= |s| - |r| && s[i..i + |r|] == r && AllSpace(s[..i]) && AllSpace(s[i + |r|..])
  }

  /** Trimming removes white space at both ends and nothing else: `s` is
      `Trim(s)` with white space on either side. */
  lemma TrimSpec(s: string)
    ensures exists i :: PaddedAt(s, i, Trim(s))
  {
    var t := TrimStart(s);
    var r := TrimEnd(t);
    var i := |s| - |t|;
    assert r == Trim(s);
    assert t == s[i..];
    assert s[i..i + |r|] == t[..|r|];
    assert s[i + |r|..] == t[|r|..];
    assert AllSpace(s[..i]);
    assert AllSpace(s[i + |r|..]);
    assert PaddedAt(s, i, r);
  }

  /** What is left after trimming neither starts nor ends with white space. */
  lemma TrimEnds(s: string)
    ensures Trim(s) != [] ==> !IsSpace(Trim(s)[0]) && !IsSpace(Trim(s)[|Trim(s)| - 1])
  {
    var t := TrimStart(s);
    var r := TrimEnd(t);
    if r != [] {
      assert r[0] == t[0];
    }
  }

  lemma TrimEmptyAllSpace(s: string)
    requires Trim(s) == []
    ensures AllSpace(s)
  {
    var t := TrimStart(s);
    assert t == [] by {
      assert t[|TrimEnd(t)|..] == t;
    }
    assert s[..|s|] == s;
  }

  lemma TrimNonEmptyNotAllSpace(s: string)
    requires Trim(s) != []
    ensures !AllSpace(s)
  {
    var t := TrimStart(s);
    var r := TrimEnd(t);
    assert r[0] == t[0];
    assert s[|s| - |t|] == t[0];
  }

  /** A string trims to the empty string exactly when it is all white space. */
  lemma TrimEmptyIffAllSpace(s: string)
    ensures Trim(s) == [] <==> AllSpace(s)
  {
    if Trim(s) == [] {
      TrimEmptyAllSpace(s);
    } else {
      TrimNonEmptyNotAllSpace(s);
    }
  }

  /** Trimming is idempotent. */
  lemma TrimIdempotent(s: string)
    ensures Trim(Trim(s)) == Trim(s)
  {
    var r := Trim(s);
    if r != [] {
      TrimEnds(s);
    }
  }

  /** `s.startsWith(p)`: case-sensitive prefix test. */
  predicate StartsWith(s: string, p: string)
  {
    |p| <= |s| && s[..|p|] == p
  }

  /** Position of the first occurrence of `c` in `s`. */
  function IndexOf(s: string, c: char): (i: nat)
    requires c in s
    ensures i < |s| && s[i] == c && c !in s[..i]
  {
    if s[0] == c then 0 else
      var j := IndexOf(s[1..], c);
      assert s[..j + 1] == [s[0]] + s[1..][..j];
      j + 1
  }

  /** `s.split(sep)` for a one-character separator: the fields between
      consecutive separators, at least one of them. */
  function Split(s: string, sep: char): (parts: seq<string>)
    ensures |parts| >= 1
    ensures forall k :: 0 <= k < |parts| ==> sep !in parts[k]
    decreases |s|
  {
    if sep !in s then [s] else
      var i := IndexOf(s, sep);
      [s[..i]] + Split(s[i + 1..], sep)
  }

  /** `parts.join(sep)`. */
  function Join(parts: seq<string>, sep: char): string
    requires |parts| >= 1
  {
    if |parts| == 1 then parts[0] else parts[0] + [sep] + Join(parts[1..], sep)
  }

  /** Joining the fields of a split gives back the original string. */
  lemma {:induction false} JoinSplit(s: string, sep: char)
    ensures Join(Split(s, sep), sep) == s
    decreases |s|
  {
    if sep in s {
      var i := IndexOf(s, sep);
      var rest := Split(s[i + 1..], sep);
      var parts := Split(s, sep);
      assert parts == [s[..i]] + rest;
      assert parts[1..] == rest;
      JoinSplit(s[i + 1..], sep);
      assert Join(parts, sep) == s[..i] + [sep] + Join(rest, sep);
      assert s == s[..i] + [sep] + s[i + 1..];
    }
  }

  /** Splitting a join of separator-free fields gives back those fields. */
  lemma {:induction false} SplitJoin(parts: seq<string>, sep: char)
    requires |parts| >= 1
    requires forall k :: 0 <= k < |parts| ==> sep !in parts[k]
    ensures Split(Join(parts, sep), sep) == parts
  {
    if |parts| == 1 {
      assert sep !in parts[0];
    } else {
      var rest := Join(parts[1..], sep);
      assert Join(parts, sep) == parts[0] + [sep] + rest;
      assert sep !in parts[0];
      SplitFirst(parts[0], rest, sep);
      SplitJoin(parts[1..], sep);
      assert parts == [parts[0]] + parts[1..];
    }
  }

  /** The first field of a split is a prefix that ends at a separator or
      at the end of the string. */
  lemma SplitHead(s: string, sep: char)
    ensures var h := Split(s, sep)[0];
      |h| <= |s| && s[..|h|] == h && (|h| == |s| || s[|h|] == sep)
  {
    if sep in s {
      var i := IndexOf(s, sep);
      assert Split(s, sep)[0] == s[..i];
    }
  }

  /** The first field of a split is everything before the first separator. */
  lemma SplitFirst(a: string, b: string, sep: char)
    requires sep !in a
    ensures Split(a + [sep] + b, sep) == [a] + Split(b, sep)
  {
    var s := a + [sep] + b;
    assert s[|a|] == sep;
    var i := IndexOf(s, sep);
    assert s[..i] == a;
    assert s[i + 1..] == b;
  }

  // ----- parseInt(x, 10) -----

  predicate IsDigit(c: char)
  {
    '0' <= c <= '9'
  }

  predicate AllDigits(s: string)
  {
    forall k :: 0 <= k < |s| ==> IsDigit(s[k])
  }

  function DigitValue(c: char): nat
    requires IsDigit(c)
  {
    (c - '0') as nat
  }

  function DigitChar(d: nat): (c: char)
    requires d < 10
    ensures IsDigit(c) && DigitValue(c) == d
  {
    ('0' as int + d) as char
  }

  /** The longest prefix of `s` made of decimal digits. */
  function LeadingDigits(s: string): (ds: string)
    ensures |ds| <= |s| && ds == s[..|ds|] && AllDigits(ds)
    ensures |ds| < |s| ==> !IsDigit(s[|ds|])
  {
    if |s| > 0 && IsDigit(s[0]) then
      var ds := LeadingDigits(s[1..]);
      assert [s[0]] + ds == s[..|ds| + 1];
      [s[0]] + ds
    else
      []
  }

  /** The number a string of decimal digits denotes. */
  function DigitsValue(ds: string): nat
    requires AllDigits(ds)
  {
    if ds == [] then 0 else DigitsValue(ds[..|ds| - 1]) * 10 + DigitValue(ds[|ds| - 1])
  }

  /** The number the leading decimal digits of `s` denote; `None` when
      `s` does not start with a digit. */
  function LeadingNumber(s: string): Option<nat>
  {
    var ds := LeadingDigits(s);
    if ds == [] then None else Some(DigitsValue(ds))
  }

  function Negate(n: Option<nat>): Option<int>
  {
    if n.None? then None else Some(-(n.value as int))
  }

  /** `parseInt(s, 10)`: skip leading white space, read an optional sign and
      then as many decimal digits as follow; `None` stands for `NaN`, the
      answer when no digit follows. Anything after the digits is ignored. */
  function ParseInt(s: string): Option<int>
  {
    var t := TrimStart(s);
    if |t| > 0 && t[0] == '-' then Negate(LeadingNumber(t[1..]))
    else if |t| > 0 && t[0] == '+' then LeadingNumber(t[1..])
    else LeadingNumber(t)
  }

  /** Decimal rendering of a natural number, without leading zeros. */
  function ShowNat(n: nat): (s: string)
    ensures |s| >= 1 && AllDigits(s)
  {
    if n < 10 then [DigitChar(n)] else ShowNat(n / 10) + [DigitChar(n % 10)]
  }

  /** Decimal rendering of an integer, as `String(n)` gives it. */
  function ShowInt(n: int): string
  {
    if n < 0 then "-" + ShowNat(-n) else ShowNat(n)
  }

  lemma {:induction false} DigitsValueShowNat(n: nat)
    ensures DigitsValue(ShowNat(n)) == n
  {
    var s := ShowNat(n);
    if n >= 10 {
      DigitsValueShowNat(n / 10);
      assert s[..|s| - 1] == ShowNat(n / 10);
    }
  }

  lemma LeadingDigitsOfDigits(s: string)
    requires AllDigits(s)
    ensures LeadingDigits(s) == s
  {
  }

  /** White space trimming leaves a string alone that starts with
      something else. */
  lemma TrimStartAtNonSpace(s: string)
    requires |s| > 0 && !IsSpace(s[0])
    ensures TrimStart(s) == s
  {
  }

  lemma LeadingNumberOfDigits(ds: string)
    requires |ds| >= 1 && AllDigits(ds)
    ensures LeadingNumber(ds) == Some(DigitsValue(ds))
  {
    LeadingDigitsOfDigits(ds);
  }

  /** A run of digits parses to its value. */
  lemma ParseDigits(ds: string)
    requires |ds| >= 1 && AllDigits(ds)
    ensures ParseInt(ds) == Some(DigitsValue(ds))
  {
    TrimStartAtNonSpace(ds);
    LeadingNumberOfDigits(ds);
  }

  /** A minus sign in front of a number negates it. */
  lemma ParseNegative(ds: string, v: nat)
    requires LeadingNumber(ds) == Some(v)
    ensures ParseInt("-" + ds) == Some(-(v as int))
  {
    var s := "-" + ds;
    assert s[0] == '-' && s[1..] == ds;
    TrimStartAtNonSpace(s);
  }

  /** The decimal rendering of a natural number reads back as that number. */
  lemma LeadingNumberShowNat(n: nat)
    ensures LeadingNumber(ShowNat(n)) == Some(n)
  {
    DigitsValueShowNat(n);
    LeadingNumberOfDigits(ShowNat(n));
  }

  /** Parsing the decimal rendering of a natural number gives it back. */
  lemma ParseShowNat(n: nat)
    ensures ParseInt(ShowNat(n)) == Some(n)
  {
    DigitsValueShowNat(n);
    ParseDigits(ShowNat(n));
  }

  lemma ParseShowNonNegative(n: int)
    requires n >= 0
    ensures ParseInt(ShowInt(n)) == Some(n)
  {
    assert ShowInt(n) == ShowNat(n);
    ParseShowNat(n);
  }

  lemma ParseShowNegative(n: int)
    requires n < 0
    ensures ParseInt(ShowInt(n)) == Some(n)
  {
    var m: nat := -n;
    var digits := ShowNat(m);
    assert ShowInt(n) == "-" + digits;
    LeadingNumberShowNat(m);
    ParseNegative(digits, m);
  }

  /** Leading white space in front of any text is dropped with the rest. */
  lemma {:induction false} TrimStartSkipsSpace(ws: string, s: string)
    requires AllSpace(ws)
    ensures TrimStart(ws + s) == TrimStart(s)
  {
    if ws != [] {
      var t := ws + s;
      assert IsSpace(ws[0]) && t[0] == ws[0] && t[1..] == ws[1..] + s;
      assert TrimStart(t) == TrimStart(t[1..]);
      assert AllSpace(ws[1..]) by {
        forall k | 0 <= k < |ws[1..]| ensures IsSpace(ws[1..][k]) {
          assert ws[1..][k] == ws[k + 1];
        }
      }
      TrimStartSkipsSpace(ws[1..], s);
    } else {
      assert ws + s == s;
    }
  }

  /** `parseInt` skips white space before the number. */
  lemma ParseSkipsSpace(ws: string, s: string)
    requires AllSpace(ws)
    ensures ParseInt(ws + s) == ParseInt(s)
  {
    TrimStartSkipsSpace(ws, s);
  }

  /** A `+` sign in front of a number leaves it as it is. */
  lemma ParsePlus(ds: string)
    ensures ParseInt("+" + ds) == LeadingNumber(ds)
  {
    var s := "+" + ds;
    assert s[0] == '+' && s[1..] == ds;
    TrimStartAtNonSpace(s);
  }

  /** The leading digits stop at the first character that is no digit. */
  lemma {:induction false} LeadingDigitsThen(ds: string, rest: string)
    requires AllDigits(ds)
    requires rest == [] || !IsDigit(rest[0])
    ensures LeadingDigits(ds + rest) == ds
  {
    if ds != [] {
      var t := ds + rest;
      assert t[0] == ds[0] && t[1..] == ds[1..] + rest;
      LeadingDigitsThen(ds[1..], rest);
      assert ds == [ds[0]] + ds[1..];
    } else {
      assert ds + rest == rest;
    }
  }

  /** The number at the front of a text ends where the digits end. */
  lemma LeadingNumberThen(n: nat, rest: string)
    requires rest == [] || !IsDigit(rest[0])
    ensures LeadingNumber(ShowNat(n) + rest) == Some(n)
  {
    LeadingDigitsThen(ShowNat(n), rest);
    DigitsValueShowNat(n);
  }

  lemma ParseNonNegativeThen(n: int, rest: string)
    requires n >= 0
    requires rest == [] || !IsDigit(rest[0])
    ensures ParseInt(ShowInt(n) + rest) == Some(n)
  {
    var s := ShowNat(n) + rest;
    assert ShowInt(n) == ShowNat(n);
    assert s[0] == ShowNat(n)[0];
    TrimStartAtNonSpace(s);
    LeadingNumberThen(n, rest);
  }

  lemma ParseNegativeThen(n: int, rest: string)
    requires n < 0
    requires rest == [] || !IsDigit(rest[0])
    ensures ParseInt(ShowInt(n) + rest) == Some(n)
  {
    var m: nat := -n;
    var ds := ShowNat(m) + rest;
    assert ShowInt(n) + rest == "-" + ds;
    LeadingNumberThen(m, rest);
    ParseNegative(ds, m);
  }

  /** `parseInt` reads a number and ignores whatever follows its digits. */
  lemma ParseIgnoresRest(n: int, rest: string)
    requires rest == [] || !IsDigit(rest[0])
    ensures ParseInt(ShowInt(n) + rest) == Some(n)
  {
    if n < 0 {
      ParseNegativeThen(n, rest);
    } else {
      ParseNonNegativeThen(n, rest);
    }
  }

  /** Parsing the decimal rendering of any integer gives that integer back. */
  lemma ParseShowInt(n: int)
    ensures ParseInt(ShowInt(n)) == Some(n)
  {
    if n < 0 {
      ParseShowNegative(n);
    } else {
      ParseShowNonNegative(n);
    }
  }
}
