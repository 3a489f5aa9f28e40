/** Model of `parse_dollar` (app.py): the three dollar text fields of the form
    lose every `$` and `,`, are stripped of surrounding whitespace and are read
    as a base-10 integer; text that is not an integer yields the caller's
    fallback value instead. */
module Dollars {

  datatype Option<T> = None | Some(value: T)

  // ---------------------------------------------------------------------
  // Cleanup: str.replace and str.strip.

  /** `s.replace(c, "")`. */
  function RemoveAll(s: string, c: char): (r: string)
    ensures |r| <= |s|
    ensures c !in r
  {
    if s == [] then []
    else (if s[0] == c then [] else [s[0]]) + RemoveAll(s[1..], c)
  }

  /** Removing c keeps exactly the other characters. */
  lemma {:induction false} RemoveAllKeeps(s: string, c: char, x: char)
    requires x != c
    ensures x in RemoveAll(s, c) <==> x in s
  {
    if s != [] {
      RemoveAllKeeps(s[1..], c, x);
      assert s == [s[0]] + s[1..];
    }
  }

  /** Cleaning keeps every character other than `$` and `,`, and only those. */
  lemma CleanKeeps(raw: string, x: char)
    requires x != '$' && x != ','
    ensures x in Clean(raw) <==> x in raw
  {
    RemoveAllKeeps(raw, '$', x);
    RemoveAllKeeps(RemoveAll(raw, '$'), ',', x);
  }

  /** Cleaned text holds no `$` and no `,`. */
  lemma CleanHasNoSeparators(raw: string)
    ensures '$' !in Clean(raw) && ',' !in Clean(raw)
  {
    RemoveAllKeeps(RemoveAll(raw, '$'), ',', '$');
  }

  lemma {:induction false} RemoveAllConcat(a: string, b: string, c: char)
    ensures RemoveAll(a + b, c) == RemoveAll(a, c) + RemoveAll(b, c)
  {
    if a != [] {
      assert (a + b)[1..] == a[1..] + b;
      RemoveAllConcat(a[1..], b, c);
    } else {
      assert a + b == b;
    }
  }

  /** `raw.replace("$", "").replace(",", "")`. */
  function Clean(raw: string): string {
    RemoveAll(RemoveAll(raw, '$'), ',')
  }

  /** Cleaning works piece by piece. */
  lemma CleanConcat(a: string, b: string)
    ensures Clean(a + b) == Clean(a) + Clean(b)
  {
    RemoveAllConcat(a, b, '$');
    RemoveAllConcat(RemoveAll(a, '$'), RemoveAll(b, '$'), ',');
  }

  /** The ASCII characters that Python's `str.strip()` removes: tab, line
      feed, vertical tab, form feed, carriage return, the separators
      0x1C to 0x1F, and space. */
  predicate IsSpace(c: char) {
    ('\t' <= c <= '\r') || ('\U{1C}' <= c <= ' ')
  }

  /** Leading whitespace removed. */
  function TrimStart(s: string): (r: string)
    ensures |r| <= |s| && r == s[|s| - |r|..]
    ensures forall i :: 0 <= i < |s| - |r| ==> IsSpace(s[i])
    ensures r != [] ==> !IsSpace(r[0])
  {
    if s != [] && IsSpace(s[0]) then
      var r := TrimStart(s[1..]);
      assert s[1..][|s| - 1 - |r|..] == s[|s| - |r|..];
      assert forall i :: 1 <= i < |s| - |r| ==> s[i] == s[1..][i - 1];
      r
    else s
  }

  /** Trailing whitespace removed. */
  function TrimEnd(s: string): (r: string)
    ensures |r| <= |s| && r == s[..|r|]
    ensures forall i :: |r| <= i < |s| ==> IsSpace(s[i])
    ensures r != [] ==> !IsSpace(r[|r| - 1])
  {
    if s != [] && IsSpace(s[|s| - 1]) then TrimEnd(s[..|s| - 1]) else s
  }

  /** `s.strip()`. */
  function Strip(s: string): string {
    TrimEnd(TrimStart(s))
  }

  /** Stripping keeps every character that lies between two non-space
      characters (or is one). */
  lemma StripKeepsInner(s: string, lo: nat, p: nat, hi: nat)
    requires lo <= p <= hi < |s| && !IsSpace(s[lo]) && !IsSpace(s[hi])
    ensures s[p] in Strip(s)
  {
    var t := TrimStart(s);
    var cut := |s| - |t|;
    assert cut <= lo;
    assert t == s[cut..];
    assert t[p - cut] == s[p] && t[hi - cut] == s[hi];
    var u := TrimEnd(t);
    assert hi - cut < |u|;
    assert u == t[..|u|];
    assert u[p - cut] == t[p - cut];
  }

  /** Text without surrounding whitespace is left alone. */
  lemma StripUnchanged(s: string)
    requires s != [] && !IsSpace(s[0]) && !IsSpace(s[|s| - 1])
    ensures Strip(s) == s
  {
  }

  // ---------------------------------------------------------------------
  // Integer parsing: the part of Python's int() that this model covers.

  predicate IsDigit(c: char) {
    '0' <= c <= '9'
  }

  predicate AllDigits(s: string) {
    forall i :: 0 <= i < |s| ==> IsDigit(s[i])
  }

  function DigitValue(c: char): nat
    requires IsDigit(c)
  {
    c as int - '0' as int
  }

  /** The number a string of decimal digits denotes (leading zeros allowed). */
  function Value(s: string): nat
    requires AllDigits(s)
  {
    if s == [] then 0 else Value(s[..|s| - 1]) * 10 + DigitValue(s[|s| - 1])
  }

  /** The text `int()` accepts here: an optional `+` or `-` followed by one
      or more ASCII decimal digits. */
  predicate IsIntText(s: string) {
    (s != [] && AllDigits(s)) || (|s| >= 2 && (s[0] == '+' || s[0] == '-') && AllDigits(s[1..]))
  }

  /** `int(s)` on text that has already been stripped; anything but an
      optionally signed digit string fails. */
  function ParseInt(s: string): (r: Option<int>)
    ensures r.Some? <==> IsIntText(s)
    ensures r.Some? ==> s != []
    ensures r.Some? ==> forall i :: 0 <= i < |s| ==>
      IsDigit(s[i]) || (i == 0 && (s[0] == '+' || s[0] == '-'))
  {
    if |s| >= 2 && (s[0] == '+' || s[0] == '-') && AllDigits(s[1..]) then
      var magnitude: int := Value(s[1..]);
      Some(if s[0] == '-' then -magnitude else magnitude)
    else if |s| >= 1 && AllDigits(s) then Some(Value(s))
    else None
  }

  /** Text with a character that is neither a digit nor a leading sign is
      not an integer. */
  lemma ParseIntRejects(s: string, k: nat)
    requires k < |s| && !IsDigit(s[k])
    requires k > 0 || (s[k] != '+' && s[k] != '-')
    ensures ParseInt(s) == None
  {
  }

  /** Unsigned digits parse to the number they denote. */
  lemma ParseIntDigits(s: string)
    requires s != [] && AllDigits(s)
    ensures ParseInt(s) == Some(Value(s))
  {
    assert IsDigit(s[0]);
  }

  /** A sign in front of digits gives their value with that sign. */
  lemma ParseIntSigned(digits: string)
    requires digits != [] && AllDigits(digits)
    ensures ParseInt("-" + digits) == Some(-(Value(digits) as int))
    ensures ParseInt("+" + digits) == Some(Value(digits))
  {
    assert ("-" + digits)[1..] == digits;
    assert ("+" + digits)[1..] == digits;
  }

  /** What `parse_dollar` reads from the text, or None where `int()` raises. */
  function ParseDollarText(raw: string): Option<int> {
    ParseInt(Strip(Clean(raw)))
  }

  /** `parse_dollar(raw, default)`: the number in the text, or the fallback
      when the text is not an integer (the error message shown then is UI).
      Any other result needs a decimal digit somewhere in the text. */
  function ParseDollar(raw: string, default: int): (r: int)
    ensures r == default || exists i :: 0 <= i < |raw| && IsDigit(raw[i])
  {
    match ParseDollarText(raw)
    case Some(v) =>
      ParsedTextHasDigit(raw);
      v
    case None => default
  }

  /** Text that parses holds a digit. */
  lemma ParsedTextHasDigit(raw: string)
    requires ParseDollarText(raw).Some?
    ensures exists i :: 0 <= i < |raw| && IsDigit(raw[i])
  {
    var c := Clean(raw);
    var t := TrimStart(c);
    var s := TrimEnd(t);
    var k := if IsDigit(s[0]) then 0 else 1;
    assert IsDigit(s[k]);
    assert s[k] == t[k];
    assert t[k] == c[|c| - |t| + k];
    CleanKeeps(raw, s[k]);
    assert s[k] in raw;
  }

  // ---------------------------------------------------------------------
  // Rejected text.

  /** Text with nothing but `$`, `,` and whitespace (the empty text too)
      falls back to the default. */
  lemma BlankFallsBack(raw: string, default: int)
    requires forall i :: 0 <= i < |raw| ==> raw[i] == '$' || raw[i] == ',' || IsSpace(raw[i])
    ensures ParseDollar(raw, default) == default
  {
    var t := Clean(raw);
    CleanHasNoSeparators(raw);
    forall k | 0 <= k < |t| ensures IsSpace(t[k]) {
      CleanKeeps(raw, t[k]);
    }
    assert TrimStart(t) == [];
    assert Strip(t) == [];
  }

  /** A character that is no digit, sign, separator or whitespace (a letter,
      a decimal point) makes the text fall back to the default. */
  lemma ForeignCharFallsBack(raw: string, c: char, default: int)
    requires c in raw && !IsDigit(c) && !IsSpace(c)
    requires c != '$' && c != ',' && c != '+' && c != '-'
    ensures ParseDollar(raw, default) == default
  {
    var t := Clean(raw);
    CleanKeeps(raw, c);
    var p :| 0 <= p < |t| && t[p] == c;
    StripKeepsInner(t, p, p, p);
    var s := Strip(t);
    var k :| 0 <= k < |s| && s[k] == c;
    ParseIntRejects(s, k);
  }

  /** Whitespace between two digits makes the text fall back to the default. */
  lemma InnerSpaceFallsBack(before: string, space: char, after: string, d1: char, d2: char, default: int)
    requires IsSpace(space) && IsDigit(d1) && IsDigit(d2)
    requires d1 in before && d2 in after
    ensures ParseDollar(before + [space] + after, default) == default
  {
    var a, b := Clean(before), Clean(after);
    CleanAroundSpace(before, space, after);
    CleanKeeps(before, d1);
    CleanKeeps(after, d2);
    var i :| 0 <= i < |a| && a[i] == d1;
    var j :| 0 <= j < |b| && b[j] == d2;
    SpaceInsideRejected(a + [space] + b, i, |a|, |a| + 1 + j);
  }

  lemma CleanAroundSpace(before: string, space: char, after: string)
    requires IsSpace(space)
    ensures Clean(before + [space] + after) == Clean(before) + [space] + Clean(after)
  {
    CleanConcat(before + [space], after);
    CleanConcat(before, [space]);
    assert Clean([space]) == [space];
  }

  /** Stripped text that keeps a space between two digits is not an integer. */
  lemma SpaceInsideRejected(t: string, lo: nat, p: nat, hi: nat)
    requires lo < p < hi < |t| && IsDigit(t[lo]) && IsSpace(t[p]) && IsDigit(t[hi])
    ensures ParseInt(Strip(t)) == None
  {
    StripKeepsInner(t, lo, p, hi);
    var s := Strip(t);
    var k :| 0 <= k < |s| && s[k] == t[p];
    ParseIntRejects(s, k);
  }

  lemma CleanSingleSeparator(c: char)
    requires c == '$' || c == ','
    ensures Clean([c]) == []
  {
    assert RemoveAll([c], c) == [];
    if c == '$' {
      assert Clean([c]) == RemoveAll([], ',');
    } else {
      NoCharRemoved([c], '$');
    }
  }

  /** Inserting a `$` or `,` anywhere in the text changes nothing. */
  lemma SeparatorIgnored(before: string, c: char, after: string, default: int)
    requires c == '$' || c == ','
    ensures ParseDollar(before + [c] + after, default) == ParseDollar(before + after, default)
  {
    CleanSeparatorIgnored(before, c, after);
    SameCleanSameParse(before + [c] + after, before + after, default);
  }

  lemma CleanSeparatorIgnored(before: string, c: char, after: string)
    requires c == '$' || c == ','
    ensures Clean(before + [c] + after) == Clean(before + after)
  {
    var a, b := Clean(before), Clean(after);
    CleanConcat(before + [c], after);
    CleanConcat(before, [c]);
    CleanSingleSeparator(c);
    assert Clean(before + [c]) == a + [] == a;
    CleanConcat(before, after);
  }

  /** Texts that clean to the same text parse alike. */
  lemma SameCleanSameParse(x: string, y: string, default: int)
    requires Clean(x) == Clean(y)
    ensures ParseDollar(x, default) == ParseDollar(y, default)
  {
    assert ParseDollarText(x) == ParseDollarText(y);
  }

  // ---------------------------------------------------------------------
  // Writing numbers: decimal digits and comma thousands grouping.

  function DigitChar(d: nat): (c: char)
    requires d < 10
    ensures IsDigit(c) && DigitValue(c) == d
  {
    ('0' as int + d) as char
  }

  /** n in decimal, without leading zeros. */
  function Decimal(n: nat): (s: string)
    ensures s != [] && AllDigits(s)
  {
    if n < 10 then [DigitChar(n)] else Decimal(n / 10) + [DigitChar(n % 10)]
  }

  /** m < 1000 as exactly three digits, for a group after a comma. */
  function ThreeDigits(m: nat): (s: string)
    requires m < 1000
    ensures |s| == 3 && AllDigits(s)
  {
    [DigitChar(m / 100), DigitChar(m / 10 % 10), DigitChar(m % 10)]
  }

  /** n with commas between groups of three digits, as Python's `f"{n:,}"`
      writes it and as the form's default texts are written. */
  function Grouped(n: nat): (s: string)
    ensures s != []
  {
    if n < 1000 then Decimal(n) else Grouped(n / 1000) + "," + ThreeDigits(n % 1000)
  }

  lemma {:induction false} ValueConcat(a: string, b: string)
    requires AllDigits(a) && AllDigits(b)
    ensures AllDigits(a + b)
    ensures Value(a + b) == Value(a) * Pow10(|b|) + Value(b)
  {
    if b != [] {
      var front, last := b[..|b| - 1], b[|b| - 1];
      var ab := a + b;
      assert ab[..|ab| - 1] == a + front;
      assert ab[|ab| - 1] == last;
      ValueConcat(a, front);
      var x, y, p := Value(a), Value(front), Pow10(|front|);
      calc {
        Value(ab);
        Value(a + front) * 10 + DigitValue(last);
        (x * p + y) * 10 + DigitValue(last);
        { ShiftDigit(x, p, y, DigitValue(last)); }
        x * (p * 10) + (y * 10 + DigitValue(last));
        x * Pow10(|b|) + Value(b);
      }
    } else {
      assert a + b == a;
    }
  }

  lemma ShiftDigit(x: int, p: int, y: int, d: int)
    ensures (x * p + y) * 10 + d == x * (p * 10) + (y * 10 + d)
  {
  }

  function Pow10(k: nat): nat {
    if k == 0 then 1 else 10 * Pow10(k - 1)
  }

  /** Decimal writes n. */
  lemma {:induction false} DecimalValue(n: nat)
    ensures Value(Decimal(n)) == n
  {
    if n >= 10 {
      DecimalValue(n / 10);
      ValueConcat(Decimal(n / 10), [DigitChar(n % 10)]);
    }
  }

  lemma ThreeDigitsValue(m: nat)
    requires m < 1000
    ensures Value(ThreeDigits(m)) == m
  {
    var s := ThreeDigits(m);
    var s2 := s[..2];
    var s1 := s2[..1];
    assert s1[..0] == [];
    assert Value(s1) == DigitValue(s[0]);
    assert Value(s2) == DigitValue(s[0]) * 10 + DigitValue(s[1]);
    assert Value(s) == (DigitValue(s[0]) * 10 + DigitValue(s[1])) * 10 + DigitValue(s[2]);
  }

  /** Removing the commas from a grouped number leaves its decimal digits. */
  lemma {:induction false} CleanGrouped(n: nat)
    ensures var t := Clean(Grouped(n));
      t != [] && AllDigits(t) && Value(t) == n
  {
    if n < 1000 {
      DecimalValue(n);
      NoSeparatorsClean(Decimal(n));
    } else {
      CleanGrouped(n / 1000);
      var h, tail := Clean(Grouped(n / 1000)), ThreeDigits(n % 1000);
      CleanGroupedStep(n);
      ThreeDigitsValue(n % 1000);
      ValueConcat(h, tail);
      assert Pow10(3) == 1000;
    }
  }

  /** Removing the commas from a number of four or more digits joins its
      leading groups to its last three digits. */
  lemma CleanGroupedStep(n: nat)
    requires n >= 1000
    ensures Clean(Grouped(n)) == Clean(Grouped(n / 1000)) + ThreeDigits(n % 1000)
  {
    var head, tail := Grouped(n / 1000), ThreeDigits(n % 1000);
    assert Grouped(n) == head + [','] + tail;
    CleanConcat(head + [','], tail);
    CleanConcat(head, [',']);
    CleanSingleSeparator(',');
    NoSeparatorsClean(tail);
  }

  /** Cleaning text of digits changes nothing. */
  lemma NoSeparatorsClean(s: string)
    requires AllDigits(s)
    ensures Clean(s) == s
  {
    NoCharRemoved(s, '$');
    NoCharRemoved(s, ',');
  }

  lemma {:induction false} NoCharRemoved(s: string, c: char)
    requires c !in s
    ensures RemoveAll(s, c) == s
  {
    if s != [] {
      NoCharRemoved(s[1..], c);
      assert s == [s[0]] + s[1..];
    }
  }

  /** Round trip: a dollar sign followed by a number with comma grouping
      parses back to that number, whatever the fallback. */
  lemma GroupedRoundTrip(n: nat, default: int)
    ensures ParseDollar("$" + Grouped(n), default) == n
  {
    var g := Grouped(n);
    CleanDollarPrefix(g);
    CleanGrouped(n);
    var t := Clean(g);
    StripUnchanged(t);
    ParseIntDigits(t);
  }

  /** Round trip for a negative amount: a minus sign, a dollar sign and a
      grouped number parse back to the negated number. */
  lemma NegativeGroupedRoundTrip(n: nat, default: int)
    ensures ParseDollar("-$" + Grouped(n), default) == -(n as int)
  {
    var g := Grouped(n);
    CleanGrouped(n);
    var digits := Clean(g);
    assert "-$" + g == "-" + ("$" + g);
    CleanConcat("-", "$" + g);
    CleanDollarPrefix(g);
    NoSeparatorsCleanMinus();
    var t := "-" + digits;
    assert Clean("-$" + g) == t;
    StripUnchanged(t);
    ParseIntSigned(digits);
  }

  lemma NoSeparatorsCleanMinus()
    ensures Clean("-") == "-"
  {
    NoCharRemoved("-", '$');
    NoCharRemoved("-", ',');
  }

  lemma CleanDollarPrefix(s: string)
    ensures Clean("$" + s) == Clean(s)
  {
    assert "$" + s == ['$'] + s;
    CleanConcat(['$'], s);
    CleanSingleSeparator('$');
  }
}
