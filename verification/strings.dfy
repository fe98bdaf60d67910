/**
 The few functions of Go's `strings` and `strconv` packages that the core
 relies on, over `string` as `seq<char>`.
 */
module GoStrings {
  import opened Wrappers

  /** `sub` occurs in `s` starting at index `i`. */
  predicate OccursAt(s: string, sub: string, i: int) {
    0 <= i && i + |sub| <= |s| && s[i..i + |sub|] == sub
  }

  /** strings.Index: the index of the first occurrence of `sub` in `s`, or -1. */
  function Index(s: string, sub: string): (r: int)
    ensures -1 <= r <= |s|
    ensures r == -1 <==> forall i | 0 <= i <= |s| :: !OccursAt(s, sub, i)
    ensures r >= 0 ==> OccursAt(s, sub, r) && forall i | 0 <= i < r :: !OccursAt(s, sub, i)
  {
    IndexFrom(s, sub, 0)
  }

  /** The first occurrence of `sub` in `s` at or after `from`, or -1. */
  function IndexFrom(s: string, sub: string, from: nat): (r: int)
    requires from <= |s|
    ensures r == -1 || from <= r <= |s|
    ensures r == -1 ==> forall i | from <= i <= |s| :: !OccursAt(s, sub, i)
    ensures r >= 0 ==> OccursAt(s, sub, r) && forall i | from <= i < r :: !OccursAt(s, sub, i)
    decreases |s| - from
  {
    if from + |sub| > |s| then -1
    else if s[from..from + |sub|] == sub then from
    else IndexFrom(s, sub, from + 1)
  }

  /** The number of occurrences of character `c` in `s`. */
  function CountChar(s: string, c: char): nat {
    if |s| == 0 then 0 else (if s[0] == c then 1 else 0) + CountChar(s[1..], c)
  }

  /**
   strings.Join: the parts separated by `sep`; no parts give "". The result
   starts with the first part, which the separator follows when there are
   more.
   */
  function Join(parts: seq<string>, sep: string): (r: string)
    ensures |parts| == 0 ==> r == ""
    ensures |parts| > 0 ==> parts[0] <= r
    ensures |parts| > 1 ==> OccursAt(r, sep, |parts[0]|)
  {
    if |parts| == 0 then ""
    else if |parts| == 1 then parts[0]
    else parts[0] + sep + Join(parts[1..], sep)
  }

  /**
   strings.Split with a one-character separator: the maximal pieces of `s`
   between separators, so there is always one piece more than separators.
   */
  function Split(s: string, sep: char): (parts: seq<string>)
    ensures |parts| == CountChar(s, sep) + 1
    ensures forall k | 0 <= k < |parts| :: sep !in parts[k]
    ensures Join(parts, [sep]) == s
    // the first piece is the prefix of `s` before its first separator
    ensures parts[0] <= s
    ensures |parts[0]| < |s| ==> s[|parts[0]|] == sep
    decreases |s|
  {
    if |s| == 0 then [""]
    else
      var rest := Split(s[1..], sep);
      assert s == [s[0]] + s[1..];
      if s[0] == sep then
        JoinAfterEmpty(rest, [sep]);
        [""] + rest
      else
        JoinExtendFirst(s[0], rest, [sep]);
        [[s[0]] + rest[0]] + rest[1..]
  }

  /** An empty first part contributes only the separator after it. */
  lemma JoinAfterEmpty(rest: seq<string>, sep: string)
    requires |rest| > 0
    ensures Join([""] + rest, sep) == sep + Join(rest, sep)
  {
    assert ([""] + rest)[1..] == rest;
  }

  /** Extending the first part by a leading character extends the joined string by it. */
  lemma JoinExtendFirst(c: char, rest: seq<string>, sep: string)
    requires |rest| > 0
    ensures Join([[c] + rest[0]] + rest[1..], sep) == [c] + Join(rest, sep)
  {
    var parts := [[c] + rest[0]] + rest[1..];
    if |rest| > 1 {
      assert parts[1..] == rest[1..];
      assert Join(rest, sep) == rest[0] + sep + Join(rest[1..], sep);
    }
  }

  /**
   strings.TrimPrefix: `s` without a leading `prefix`, or `s` itself. The
   result is always a suffix of `s`, and putting the prefix back gives `s`.
   */
  function TrimPrefix(s: string, prefix: string): (r: string)
    ensures |r| <= |s| && r == s[|s| - |r|..]
    ensures prefix <= s ==> prefix + r == s
    ensures !(prefix <= s) ==> r == s
  {
    if |prefix| <= |s| && s[..|prefix|] == prefix then s[|prefix|..] else s
  }

  /** Trimming a prefix that is present leaves exactly the remainder. */
  lemma TrimPrefixOfConcat(prefix: string, rest: string)
    ensures TrimPrefix(prefix + rest, prefix) == rest
  {
    assert (prefix + rest)[..|prefix|] == prefix;
  }

  predicate IsDigit(c: char) {
    '0' <= c <= '9'
  }

  predicate AllDigits(s: string) {
    forall i | 0 <= i < |s| :: IsDigit(s[i])
  }

  function DigitValue(c: char): nat
    requires IsDigit(c)
  {
    (c as int) - ('0' as int)
  }

  /** The value of a string of decimal digits, most significant first. */
  function DigitsValue(ds: string): nat
    requires AllDigits(ds)
    decreases |ds|
  {
    if |ds| == 0 then 0 else DigitsValue(ds[..|ds| - 1]) * 10 + DigitValue(ds[|ds| - 1])
  }

  const MinInt32: int := -0x8000_0000
  const MaxInt32: int := 0x7fff_ffff

  /**
   `s` is decimal notation for `v`: digits alone, or a '+' or '-' followed by
   at least one digit. Leading zeros, a plus sign and "-0" are all allowed.
   */
  ghost predicate Denotes(s: string, v: int) {
    || (|s| > 0 && AllDigits(s) && v == DigitsValue(s))
    || (|s| > 1 && s[0] == '+' && AllDigits(s[1..]) && v == DigitsValue(s[1..]))
    || (|s| > 1 && s[0] == '-' && AllDigits(s[1..]) && v == -(DigitsValue(s[1..]) as int))
  }

  /**
   strconv.ParseInt(s, 10, 32): an optional sign followed by at least one
   decimal digit, whose value fits in 32 bits; anything else is an error
   (a syntax error or a range error, which the callers do not tell apart).
   */
  function ParseInt32(s: string): (r: Option<int>)
    ensures r.Some? ==> Denotes(s, r.value) && MinInt32 <= r.value <= MaxInt32
    ensures forall v | Denotes(s, v) && MinInt32 <= v <= MaxInt32 :: r == Some(v)
  {
    if |s| == 0 then None
    else
      var body := if s[0] == '+' || s[0] == '-' then s[1..] else s;
      if |body| == 0 || !AllDigits(body) then None
      else
        var magnitude: int := DigitsValue(body);
        var v := if s[0] == '-' then -magnitude else magnitude;
        if MinInt32 <= v <= MaxInt32 then Some(v) else None
  }

  function DigitChar(d: nat): (c: char)
    requires d < 10
    ensures IsDigit(c) && DigitValue(c) == d
  {
    ('0' as int + d) as char
  }

  /** strconv.Itoa for a natural number: its decimal digits, no leading zeros. */
  function FormatNat(n: nat): (s: string)
    ensures |s| > 0 && AllDigits(s)
  {
    if n < 10 then [DigitChar(n)] else FormatNat(n / 10) + [DigitChar(n % 10)]
  }

  /** strconv.Itoa: a minus sign before negative numbers. */
  function FormatInt(n: int): string {
    if n < 0 then "-" + FormatNat(-n) else FormatNat(n)
  }

  lemma {:induction false} DigitsValueOfFormat(n: nat)
    ensures DigitsValue(FormatNat(n)) == n
  {
    if n >= 10 {
      var s := FormatNat(n);
      assert s[..|s| - 1] == FormatNat(n / 10);
      DigitsValueOfFormat(n / 10);
    }
  }

  /** Notation Itoa never writes is accepted too, and a stray character is not. */
  lemma NonCanonicalForms()
    ensures ParseInt32("+5") == Some(5) && ParseInt32("007") == Some(7) && ParseInt32("-0") == Some(0)
    ensures ParseInt32("1a").None? && ParseInt32("+").None? && ParseInt32("").None?
  {
    assert Denotes("+5", 5) by { assert "+5"[1..] == "5"; }
    assert Denotes("007", 7) by { assert "007"[..2] == "00" && "00"[..1] == "0" && "0"[..0] == ""; }
    assert Denotes("-0", 0) by { assert "-0"[1..] == "0"; }
  }

  /** Every 32-bit integer written in decimal parses back to itself. */
  lemma ParseFormatRoundTrip(n: int)
    requires MinInt32 <= n <= MaxInt32
    ensures ParseInt32(FormatInt(n)) == Some(n)
  {
    if n < 0 {
      DigitsValueOfFormat(-n);
      assert FormatInt(n)[1..] == FormatNat(-n);
    } else {
      DigitsValueOfFormat(n);
    }
  }
}
