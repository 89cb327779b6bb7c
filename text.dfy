/** The Go string helpers the service leans on: strings.IndexByte,
    strings.LastIndexByte, strings.HasPrefix, strings.Split on a one-character
    separator, strings.TrimSpace, and the decimal text that fmt's `%d` and
    `%02d` produce. */
module Text {
  import opened Wrappers

  /** Position of the first `c` in `s`. */
  function IndexOf(s: string, c: char): (r: Option<nat>)
    ensures r.Some? ==> r.value < |s| && s[r.value] == c && c !in s[..r.value]
    ensures r.None? ==> c !in s
    decreases |s|
  {
    if |s| == 0 then None
    else if s[0] == c then Some(0)
    else
      match IndexOf(s[1..], c)
      case None => None
      case Some(i) =>
        assert s[..i + 1] == [s[0]] + s[1..][..i];
        Some(i + 1)
  }

  /** Position of the last `c` in `s`. */
  function LastIndexOf(s: string, c: char): (r: Option<nat>)
    ensures r.Some? ==> r.value < |s| && s[r.value] == c && c !in s[r.value + 1..]
    ensures r.None? ==> c !in s
    decreases |s|
  {
    if |s| == 0 then None
    else if s[|s| - 1] == c then Some(|s| - 1)
    else
      match LastIndexOf(s[..|s| - 1], c)
      case None =>
        assert s == s[..|s| - 1] + [s[|s| - 1]];
        None
      case Some(i) =>
        assert s[i + 1..] == s[..|s| - 1][i + 1..] + [s[|s| - 1]];
        Some(i)
  }

  predicate HasPrefix(s: string, prefix: string) {
    |prefix| <= |s| && s[..|prefix|] == prefix
  }

  /** strings.Split(s, string(sep)): the pieces between the separators, at
      least one (the empty string splits into [""]). */
  function Split(s: string, sep: char): (parts: seq<string>)
    ensures |parts| >= 1
    decreases |s|
  {
    match IndexOf(s, sep)
    case None => [s]
    case Some(i) => [s[..i]] + Split(s[i + 1..], sep)
  }

  /** strings.Join(parts, string(sep)), the inverse of Split. */
  function Join(parts: seq<string>, sep: char): string
    requires |parts| >= 1
  {
    if |parts| == 1 then parts[0] else parts[0] + [sep] + Join(parts[1..], sep)
  }

  /** Splitting and joining back gives the text that was split. */
  lemma {:induction false} JoinSplit(s: string, sep: char)
    ensures Join(Split(s, sep), sep) == s
    decreases |s|
  {
    match IndexOf(s, sep)
    case None =>
    case Some(i) =>
      var rest := Split(s[i + 1..], sep);
      JoinSplit(s[i + 1..], sep);
      var parts := [s[..i]] + rest;
      assert Split(s, sep) == parts;
      assert parts[1..] == rest;
      assert Join(parts, sep) == s[..i] + [sep] + Join(rest, sep);
      assert s == s[..i] + [sep] + s[i + 1..];
  }

  /** No piece produced by Split contains the separator. */
  lemma {:induction false} SplitPiecesFree(s: string, sep: char)
    ensures forall k :: 0 <= k < |Split(s, sep)| ==> sep !in Split(s, sep)[k]
    decreases |s|
  {
    match IndexOf(s, sep)
    case None =>
    case Some(i) =>
      SplitPiecesFree(s[i + 1..], sep);
  }

  /** The first piece is the text before the first separator. */
  lemma SplitFirst(s: string, sep: char)
    ensures Split(s, sep)[0] == (match IndexOf(s, sep) case None => s case Some(i) => s[..i])
  {
  }

  /** The first separator of `a + [sep] + b` is the one after `a` when `a` has none. */
  lemma IndexOfAfterFree(a: string, sep: char, b: string)
    requires sep !in a
    ensures IndexOf(a + [sep] + b, sep) == Some(|a|)
  {
    var s := a + [sep] + b;
    assert s[|a|] == sep;
    assert s[..|a|] == a;
  }

  /** The last separator of `a + [sep] + b` is the one after `a` when `b` has none. */
  lemma {:induction false} LastIndexOfBeforeFree(a: string, sep: char, b: string)
    requires sep !in b
    ensures LastIndexOf(a + [sep] + b, sep) == Some(|a|)
    decreases |b|
  {
    var s := a + [sep] + b;
    if b != [] {
      assert s[|s| - 1] == b[|b| - 1];
      assert s[..|s| - 1] == a + [sep] + b[..|b| - 1];
      LastIndexOfBeforeFree(a, sep, b[..|b| - 1]);
    }
  }

  /** Joining separator-free pieces and splitting again gives the pieces back. */
  lemma {:induction false} SplitJoin(parts: seq<string>, sep: char)
    requires |parts| >= 1
    requires forall k :: 0 <= k < |parts| ==> sep !in parts[k]
    ensures Split(Join(parts, sep), sep) == parts
  {
    if |parts| == 1 {
      assert IndexOf(parts[0], sep) == None;
    } else {
      var rest := Join(parts[1..], sep);
      IndexOfAfterFree(parts[0], sep, rest);
      var s := parts[0] + [sep] + rest;
      assert s[..|parts[0]|] == parts[0];
      assert s[|parts[0]| + 1..] == rest;
      SplitJoin(parts[1..], sep);
      assert parts == [parts[0]] + parts[1..];
    }
  }

  /** unicode.IsSpace, which strings.TrimSpace uses. */
  predicate IsSpace(c: char) {
    c == '\t' || c == '\n' || c == '\U{000B}' || c == '\U{000C}' || c == '\r' || c == ' '
    || c == '\U{0085}' || c == '\U{00A0}' || c == '\U{1680}'
    || ('\U{2000}' <= c <= '\U{200A}')
    || c == '\U{2028}' || c == '\U{2029}' || c == '\U{202F}' || c == '\U{205F}' || c == '\U{3000}'
  }

  predicate AllSpace(s: string) {
    forall k :: 0 <= k < |s| ==> IsSpace(s[k])
  }

  /** `s` without its leading white space. */
  function TrimLeft(s: string): (r: string)
    ensures |r| <= |s| && r == s[|s| - |r|..]
    ensures AllSpace(s[..|s| - |r|])
    ensures r == [] || !IsSpace(r[0])
  {
    if |s| > 0 && IsSpace(s[0]) then
      var r := TrimLeft(s[1..]);
      assert s[..|s| - |r|] == [s[0]] + s[1..][..|s| - 1 - |r|];
      r
    else s
  }

  /** `s` without its trailing white space. */
  function TrimRight(s: string): (r: string)
    ensures |r| <= |s| && r == s[..|r|]
    ensures AllSpace(s[|r|..])
    ensures r == [] || !IsSpace(r[|r| - 1])
  {
    if |s| > 0 && IsSpace(s[|s| - 1]) then
      var r := TrimRight(s[..|s| - 1]);
      assert s[|r|..] == s[..|s| - 1][|r|..] + [s[|s| - 1]];
      r
    else s
  }

  /** strings.TrimSpace. */
  function TrimSpace(s: string): (r: string)
  {
    TrimRight(TrimLeft(s))
  }

  lemma {:induction false} TrimLeftPadded(pre: string, rest: string)
    requires AllSpace(pre)
    requires rest == [] || !IsSpace(rest[0])
    ensures TrimLeft(pre + rest) == rest
    decreases |pre|
  {
    if pre != [] {
      assert (pre + rest)[1..] == pre[1..] + rest;
      TrimLeftPadded(pre[1..], rest);
    } else {
      assert pre + rest == rest;
    }
  }

  lemma {:induction false} TrimRightPadded(rest: string, post: string)
    requires AllSpace(post)
    requires rest == [] || !IsSpace(rest[|rest| - 1])
    ensures TrimRight(rest + post) == rest
    decreases |post|
  {
    if post != [] {
      assert (rest + post)[..|rest + post| - 1] == rest + post[..|post| - 1];
      TrimRightPadded(rest, post[..|post| - 1]);
    } else {
      assert rest + post == rest;
    }
  }

  /** TrimSpace removes exactly the white space around a text that neither
      starts nor ends with white space. */
  lemma TrimSpacePadded(pre: string, core: string, post: string)
    requires AllSpace(pre) && AllSpace(post)
    requires core == [] || (!IsSpace(core[0]) && !IsSpace(core[|core| - 1]))
    ensures TrimSpace(pre + core + post) == core
  {
    if core == [] {
      assert pre + core + post == pre + post + [];
      TrimLeftPadded(pre + post, []);
    } else {
      assert pre + core + post == pre + (core + post);
      TrimLeftPadded(pre, core + post);
      TrimRightPadded(core, post);
    }
  }

  predicate IsDigit(c: char) { '0' <= c <= '9' }

  predicate IsDigits(s: string) { forall k :: 0 <= k < |s| ==> IsDigit(s[k]) }

  function DigitChar(d: nat): (c: char)
    requires d < 10
    ensures IsDigit(c)
  {
    ('0' as int + d) as char
  }

  function DigitValue(c: char): nat
    requires IsDigit(c)
  {
    c as int - '0' as int
  }

  /** The number a string of decimal digits denotes (leading zeros allowed). */
  function DigitsValue(s: string): nat
    requires IsDigits(s)
  {
    if |s| == 0 then 0 else 10 * DigitsValue(s[..|s| - 1]) + DigitValue(s[|s| - 1])
  }

  /** Decimal text without leading zeros: fmt's `%d` of a non-negative integer. */
  function DecimalString(n: nat): (s: string)
    ensures |s| >= 1 && IsDigits(s)
    ensures s[0] == '0' ==> s == "0"
  {
    if n < 10 then [DigitChar(n)] else DecimalString(n / 10) + [DigitChar(n % 10)]
  }

  /** A decimal text in the form `%d` writes: digits only, no leading zero. */
  predicate IsCanonicalDecimal(s: string) {
    |s| >= 1 && IsDigits(s) && (s[0] == '0' ==> |s| == 1)
  }

  /** Reading back what DecimalString wrote gives the number. */
  lemma {:induction false} DecimalStringValue(n: nat)
    ensures DigitsValue(DecimalString(n)) == n
    decreases n
  {
    if n >= 10 {
      DecimalStringValue(n / 10);
      var s := DecimalString(n);
      assert s[..|s| - 1] == DecimalString(n / 10);
    }
  }

  lemma {:induction false} LeadingDigitPositive(s: string)
    requires |s| >= 1 && IsDigits(s) && s[0] != '0'
    ensures DigitsValue(s) > 0
    decreases |s|
  {
    if |s| > 1 {
      LeadingDigitPositive(s[..|s| - 1]);
    }
  }

  /** A canonical decimal text is what DecimalString writes for its value. */
  lemma {:induction false} CanonicalDecimalString(s: string)
    requires IsCanonicalDecimal(s)
    ensures DecimalString(DigitsValue(s)) == s
    decreases |s|
  {
    if |s| > 1 {
      var init := s[..|s| - 1];
      LeadingDigitPositive(init);
      CanonicalDecimalString(init);
      var n := DigitsValue(s);
      assert n / 10 == DigitsValue(init);
      assert n % 10 == DigitValue(s[|s| - 1]);
      assert s == init + [s[|s| - 1]];
    }
  }

  /** fmt's `%02d`: the decimal text padded with zeros to at least two characters. */
  function ZeroPad2(s: string): (r: string)
  {
    if |s| >= 2 then s else if |s| == 1 then "0" + s else "00"
  }

  /** Padding changes the text but not the number it denotes. */
  lemma ZeroPad2Value(n: nat)
    ensures IsDigits(ZeroPad2(DecimalString(n)))
    ensures |ZeroPad2(DecimalString(n))| >= 2
    ensures DigitsValue(ZeroPad2(DecimalString(n))) == n
  {
    DecimalStringValue(n);
    var d := DecimalString(n);
    if |d| == 1 {
      var p := "0" + d;
      assert p[..1] == "0";
      assert DigitsValue(p[..1]) == 0;
    }
  }
}
