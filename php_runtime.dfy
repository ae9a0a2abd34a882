/**
 * The PHP built-ins the server-side scripts rely on, on strings of characters:
 * trim, substr, strtolower, empty, str_replace, strpos, rtrim, isset and the (int) cast.
 * Also JavaScript's String(n) for integers, whose output the (int) cast reads back.
 */
module PhpRuntime {
  import opened Wrappers

  /** A value held in a PHP array such as $_SESSION. `Null` is PHP's null, which `isset` treats as absent. */
  datatype Value = Null | Int(i: int) | Str(s: string)

  /** PHP's isset($m[$k]): the key is present and its value is not null. */
  predicate IsSet(m: map<string, Value>, k: string) {
    k in m && m[k] != Null
  }

  // ---------------------------------------------------------------- trim

  /** The characters trim() strips by default: space, tab, newline, carriage return, NUL and vertical tab. */
  predicate IsTrimChar(c: char) {
    c == ' ' || c == '\t' || c == '\n' || c == '\r' || c == '\0' || c == '\U{0B}'
  }

  function TrimLeft(s: string): (r: string)
    ensures |r| <= |s| && r == s[|s| - |r|..]
    ensures r == [] || !IsTrimChar(r[0])
    ensures forall i :: 0 <= i < |s| - |r| ==> IsTrimChar(s[i])
    decreases |s|
  {
    if |s| > 0 && IsTrimChar(s[0]) then TrimLeft(s[1..]) else s
  }

  function TrimRight(s: string): (r: string)
    ensures |r| <= |s| && r == s[..|r|]
    ensures r == [] || !IsTrimChar(r[|r| - 1])
    ensures forall i :: |r| <= i < |s| ==> IsTrimChar(s[i])
    decreases |s|
  {
    if |s| > 0 && IsTrimChar(s[|s| - 1]) then TrimRight(s[..|s| - 1]) else s
  }

  /**
   * `r` is the piece of `s` that starts at index `k`, everything before and
   * after it is trim characters, and `r` itself neither starts nor ends with one.
   */
  predicate TrimmedAt(r: string, s: string, k: nat) {
    && k + |r| <= |s| && r == s[k..k + |r|]
    && (forall i :: 0 <= i < k ==> IsTrimChar(s[i]))
    && (forall i :: k + |r| <= i < |s| ==> IsTrimChar(s[i]))
    && (r == [] || (!IsTrimChar(r[0]) && !IsTrimChar(r[|r| - 1])))
  }

  /** At most one piece of a string is trimmed in that sense. */
  lemma TrimmedAtUnique(s: string, r1: string, k1: nat, r2: string, k2: nat)
    requires TrimmedAt(r1, s, k1) && TrimmedAt(r2, s, k2)
    ensures r1 == r2
  {
    assert r1 != [] ==> s[k1] == r1[0] && s[k1 + |r1| - 1] == r1[|r1| - 1];
    assert r2 != [] ==> s[k2] == r2[0] && s[k2 + |r2| - 1] == r2[|r2| - 1];
    assert r1 == [] <==> r2 == [];
    assert r1 != [] ==> k1 == k2 && |r1| == |r2|;
  }

  /** How many trim characters `s` starts with. */
  function LeadingTrim(s: string): (k: nat)
    ensures k <= |s|
  {
    |s| - |TrimLeft(s)|
  }

  /** PHP's trim(): the string without the trim characters at either end. */
  function Trim(s: string): (r: string)
    ensures |r| <= |s|
    ensures r == [] || (!IsTrimChar(r[0]) && !IsTrimChar(r[|r| - 1]))
  {
    TrimRight(TrimLeft(s))
  }

  /** trim() drops the trim characters at both ends and nothing else. */
  lemma TrimIsTrimmed(s: string)
    ensures TrimmedAt(Trim(s), s, LeadingTrim(s))
  {
    SliceOfSlice(s, TrimLeft(s), TrimRight(TrimLeft(s)), LeadingTrim(s));
  }

  /** Cutting a trimmed-from-the-right piece out of a trimmed-from-the-left suffix. */
  lemma SliceOfSlice(s: string, l: string, r: string, k: nat)
    requires k <= |s| && l == s[k..] && (forall i :: 0 <= i < k ==> IsTrimChar(s[i]))
    requires l == [] || !IsTrimChar(l[0])
    requires |r| <= |l| && r == l[..|r|] && (forall i :: |r| <= i < |l| ==> IsTrimChar(l[i]))
    requires r == [] || !IsTrimChar(r[|r| - 1])
    ensures TrimmedAt(r, s, k)
  {
    assert r == s[k..k + |r|];
    forall i | k + |r| <= i < |s|
      ensures IsTrimChar(s[i])
    {
      assert s[i] == l[i - k];
    }
    assert r != [] ==> r[0] == l[0];
  }

  /** A string that neither starts nor ends with a trim character is left alone by trim(). */
  lemma TrimUntouched(s: string)
    requires s == [] || (!IsTrimChar(s[0]) && !IsTrimChar(s[|s| - 1]))
    ensures Trim(s) == s
  {
    assert TrimmedAt(s, s, 0);
    TrimIsTrimmed(s);
    TrimmedAtUnique(s, s, 0, Trim(s), LeadingTrim(s));
  }

  // ---------------------------------------------------------------- substr, strtolower, empty

  /** PHP's substr($s, 0, $n) for a non-negative length: at most the first `n` characters. */
  function Prefix(s: string, n: nat): (r: string)
    ensures |r| <= n && |r| <= |s| && r == s[..|r|]
    ensures |s| <= n ==> r == s
    ensures |s| > n ==> |r| == n
  {
    if |s| <= n then s else s[..n]
  }

  /** strtolower on one character: only the ASCII capitals change. */
  function LowerChar(c: char): (d: char)
    ensures !('A' <= d <= 'Z')
    ensures !('A' <= c <= 'Z') ==> d == c
  {
    if 'A' <= c <= 'Z' then (c as int - 'A' as int + 'a' as int) as char else c
  }

  function ToLower(s: string): (r: string)
    ensures |r| == |s|
    ensures forall i :: 0 <= i < |r| ==> r[i] == LowerChar(s[i]) && !('A' <= r[i] <= 'Z')
  {
    seq(|s|, i requires 0 <= i < |s| => LowerChar(s[i]))
  }

  /** PHP's empty() on a string: the empty string and "0" are both empty. */
  function Empty(s: string): (r: bool)
    ensures r ==> |s| <= 1
    ensures |s| == 0 ==> r
    ensures |s| == 1 ==> (r <==> s[0] == '0')
  {
    s == "" || s == "0"
  }

  // ---------------------------------------------------------------- strpos, str_replace, rtrim

  /** strpos($s, $pat) !== false: `pat` occurs somewhere in `s`. */
  predicate Contains(s: string, pat: string)
    decreases |s|
  {
    |pat| <= |s| && (s[..|pat|] == pat || Contains(s[1..], pat))
  }

  /** `pat` sits in `s` starting at position `i`. */
  predicate OccursAt(s: string, pat: string, i: int) {
    0 <= i && i + |pat| <= |s| && s[i..i + |pat|] == pat
  }

  /** The recursive scan finds `pat` exactly when it occurs at some position of `s`. */
  lemma {:induction false} ContainsOccurs(s: string, pat: string)
    ensures Contains(s, pat) <==> exists i :: OccursAt(s, pat, i)
    decreases |s|
  {
    if |pat| <= |s| && s[..|pat|] != pat {
      ContainsOccurs(s[1..], pat);
      if exists i :: OccursAt(s, pat, i) {
        var i :| OccursAt(s, pat, i);
        assert i != 0;
        assert OccursAt(s[1..], pat, i - 1) by { assert s[1..][i - 1..i - 1 + |pat|] == s[i..i + |pat|]; }
      }
      if Contains(s[1..], pat) {
        var j :| OccursAt(s[1..], pat, j);
        assert OccursAt(s, pat, j + 1) by { assert s[1..][j..j + |pat|] == s[j + 1..j + 1 + |pat|]; }
      }
    } else if |pat| <= |s| {
      assert OccursAt(s, pat, 0);
    }
  }

  /**
   * PHP's str_replace($pat, $rep, $s): scans left to right, replaces each
   * non-overlapping occurrence and does not rescan what it put in.
   */
  function ReplaceAll(s: string, pat: string, rep: string): (r: string)
    ensures |rep| <= |pat| ==> |r| <= |s|
    ensures |rep| == |pat| ==> |r| == |s|
    decreases |s|
  {
    if |pat| == 0 || |s| < |pat| then s
    else if s[..|pat|] == pat then rep + ReplaceAll(s[|pat|..], pat, rep)
    else [s[0]] + ReplaceAll(s[1..], pat, rep)
  }

  /** A replacement of a pattern that does not occur leaves the string as it was. */
  lemma {:induction false} ReplaceAbsent(s: string, pat: string, rep: string)
    requires !Contains(s, pat)
    ensures ReplaceAll(s, pat, rep) == s
    decreases |s|
  {
    if |pat| == 0 || |s| < |pat| {
    } else {
      assert s[..|pat|] != pat && !Contains(s[1..], pat);
      ReplaceAbsent(s[1..], pat, rep);
      assert [s[0]] + s[1..] == s;
    }
  }

  /** Every character of the result comes from the subject or from the replacement. */
  lemma {:induction false} ReplaceChars(s: string, pat: string, rep: string, c: char)
    requires c in ReplaceAll(s, pat, rep)
    ensures c in s || c in rep
    decreases |s|
  {
    if |pat| == 0 || |s| < |pat| {
    } else if s[..|pat|] == pat {
      if c !in rep {
        ReplaceChars(s[|pat|..], pat, rep, c);
        assert s[|pat|..] == s[|pat|..][..];
      }
    } else {
      if c != s[0] {
        ReplaceChars(s[1..], pat, rep, c);
      }
    }
  }

  /** Replacing a one-character pattern by text without that character removes it entirely. */
  lemma {:induction false} ReplaceCharRemoves(s: string, from: char, rep: string)
    requires from !in rep
    ensures from !in ReplaceAll(s, [from], rep)
    decreases |s|
  {
    if |s| < 1 {
    } else if s[..1] == [from] {
      ReplaceCharRemoves(s[1..], from, rep);
    } else {
      assert s[0] != from by { assert s[..1] == [s[0]]; }
      ReplaceCharRemoves(s[1..], from, rep);
    }
  }

  /** rtrim($s, $c) for one character: drops every trailing `c`. */
  function RTrim(s: string, c: char): (r: string)
    ensures |r| <= |s| && r == s[..|r|]
    ensures r == [] || r[|r| - 1] != c
    ensures forall i :: |r| <= i < |s| ==> s[i] == c
    decreases |s|
  {
    if |s| > 0 && s[|s| - 1] == c then RTrim(s[..|s| - 1], c) else s
  }

  // ---------------------------------------------------------------- integers as text

  predicate IsDigit(c: char) {
    '0' <= c <= '9'
  }

  function DigitChar(d: nat): (c: char)
    requires d < 10
    ensures IsDigit(c)
  {
    ('0' as int + d) as char
  }

  /** Decimal digits of a natural number, most significant first, without leading zeros. */
  function NatDigits(n: nat): (r: string)
    ensures |r| >= 1
    ensures forall i :: 0 <= i < |r| ==> IsDigit(r[i])
    decreases n
  {
    if n < 10 then [DigitChar(n)] else NatDigits(n / 10) + [DigitChar(n % 10)]
  }

  /**
   * JavaScript's String(n) for an integer of magnitude below 1e21, where String
   * still writes plain decimal: a minus sign for negatives, then the digits.
   * Larger magnitudes switch to exponent form, which is not modelled.
   */
  function DecimalString(n: int): (r: string)
    ensures |r| >= 1
    ensures r[0] == '-' <==> n < 0
    ensures forall i :: 1 <= i < |r| ==> IsDigit(r[i])
  {
    if n < 0 then "-" + NatDigits(-n) else NatDigits(n)
  }

  /** The longest prefix of `s` made of decimal digits. */
  function LeadingDigits(s: string): (r: string)
    ensures |r| <= |s| && r == s[..|r|]
    ensures forall i :: 0 <= i < |r| ==> IsDigit(r[i])
    ensures |r| < |s| ==> !IsDigit(s[|r|])
    decreases |s|
  {
    if |s| > 0 && IsDigit(s[0]) then [s[0]] + LeadingDigits(s[1..]) else []
  }

  /** The number that a string of decimal digits denotes. */
  function DigitsValue(ds: string): nat
    decreases |ds|
  {
    if |ds| == 0 then 0
    else DigitsValue(ds[..|ds| - 1]) * 10 + (if IsDigit(ds[|ds| - 1]) then ds[|ds| - 1] as int - '0' as int else 0)
  }

  /** The whitespace PHP skips before a numeric string: space, tab, newline, carriage return, vertical tab, form feed. */
  predicate IsNumericSpace(c: char) {
    c == ' ' || c == '\t' || c == '\n' || c == '\r' || c == '\U{0B}' || c == '\U{0C}'
  }

  function SkipNumericSpace(s: string): (r: string)
    ensures |r| <= |s|
    decreases |s|
  {
    if |s| > 0 && IsNumericSpace(s[0]) then SkipNumericSpace(s[1..]) else s
  }

  /** PHP's (int) cast of a string: leading whitespace, an optional sign, then as many digits as follow. */
  function StrToInt(s: string): int {
    var t := SkipNumericSpace(s);
    if |t| > 0 && t[0] == '-' then -(DigitsValue(LeadingDigits(t[1..])) as int)
    else if |t| > 0 && t[0] == '+' then DigitsValue(LeadingDigits(t[1..]))
    else DigitsValue(LeadingDigits(t))
  }

  /** PHP's (int) cast of a value; null reads as 0. */
  function IntCast(v: Value): (r: int)
    ensures v.Null? ==> r == 0
    ensures v.Str? && (forall i :: 0 <= i < |v.s| ==> IsDigit(v.s[i])) ==> r == DigitsValue(v.s)
  {
    match v
    case Null => 0
    case Int(i) => i
    case Str(s) => DigitsCast(s); StrToInt(s)
  }

  /** A string of digits alone casts to the number it spells. */
  lemma DigitsCast(s: string)
    ensures (forall i :: 0 <= i < |s| ==> IsDigit(s[i])) ==> StrToInt(s) == DigitsValue(s)
  {
    if forall i :: 0 <= i < |s| ==> IsDigit(s[i]) {
      AllDigitsLead(s);
      assert SkipNumericSpace(s) == s;
    }
  }

  lemma {:induction false} AllDigitsLead(s: string)
    requires forall i :: 0 <= i < |s| ==> IsDigit(s[i])
    ensures LeadingDigits(s) == s
    decreases |s|
  {
    if |s| > 0 {
      AllDigitsLead(s[1..]);
      assert [s[0]] + s[1..] == s;
    }
  }

  lemma {:induction false} NatDigitsValue(n: nat)
    ensures DigitsValue(NatDigits(n)) == n
    decreases n
  {
    if n >= 10 {
      NatDigitsValue(n / 10);
      var ds := NatDigits(n / 10) + [DigitChar(n % 10)];
      assert ds[..|ds| - 1] == NatDigits(n / 10);
    }
  }

  /** The (int) cast reads back exactly the integer that String(n) wrote. */
  lemma DecimalRoundTrip(n: int)
    ensures StrToInt(DecimalString(n)) == n
  {
    var m: nat := if n < 0 then -n else n;
    NatDigitsValue(m);
    AllDigitsLead(NatDigits(m));
    var s := DecimalString(n);
    assert SkipNumericSpace(s) == s;
    if n < 0 {
      assert s[1..] == NatDigits(m);
    }
  }
}
