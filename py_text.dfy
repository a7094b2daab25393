/**
 * The Python string operations the sort key and the frame names are built
 * from: `str.split`, `int()` on a text, `str()` on a non-negative integer and
 * `str.zfill`. Text is a sequence of characters; comparison is by code point.
 */
module PyText {
  import opened Wrappers

  /** `sep` occurs in `s` starting at position `i`. */
  predicate OccursAt(s: string, sep: string, i: int)
  {
    0 <= i && i + |sep| <= |s| && s[i..i + |sep|] == sep
  }

  /** str.find(sep, from): the first occurrence of `sep` at or after `from`. */
  function FindFrom(s: string, sep: string, from: nat): (r: Option<nat>)
    requires from <= |s|
    ensures r.Some? ==> from <= r.value && OccursAt(s, sep, r.value)
    ensures forall j :: from <= j && (r.None? || j < r.value) ==> !OccursAt(s, sep, j)
    decreases |s| - from
  {
    if from + |sep| > |s| then None
    else if s[from..from + |sep|] == sep then Some(from)
    else FindFrom(s, sep, from + 1)
  }

  /**
   * str.split(sep) for a non-empty separator: cut at each occurrence found
   * scanning left to right, an occurrence resuming the scan after its end.
   */
  function Split(s: string, sep: string): (parts: seq<string>)
    requires sep != []
    ensures |parts| >= 1
    decreases |s|
  {
    match FindFrom(s, sep, 0)
    case None => [s]
    case Some(i) => [s[..i]] + Split(s[i + |sep|..], sep)
  }

  /**
   * The first part runs up to the leftmost occurrence of the separator, or is
   * the whole text when there is none: split never cuts at a later occurrence
   * while an earlier one overlaps it.
   */
  lemma SplitFirstPart(s: string, sep: string)
    requires sep != []
    ensures var p := Split(s, sep)[0];
      |p| <= |s| && s[..|p|] == p &&
      (|Split(s, sep)| == 1 <==> p == s) &&
      (|Split(s, sep)| > 1 ==> OccursAt(s, sep, |p|)) &&
      forall j :: 0 <= j < |p| ==> !OccursAt(s, sep, j)
  {
    match FindFrom(s, sep, 0)
    case None =>
    case Some(i) =>
      assert Split(s, sep)[0] == s[..i];
  }

  /** sep.join(parts) for a non-empty list of parts. */
  function Join(parts: seq<string>, sep: string): string
    requires |parts| >= 1
  {
    if |parts| == 1 then parts[0] else parts[0] + sep + Join(parts[1..], sep)
  }

  /** Joining the parts of a split with the same separator gives back the text. */
  lemma {:induction false} JoinSplit(s: string, sep: string)
    requires sep != []
    ensures Join(Split(s, sep), sep) == s
    decreases |s|
  {
    var found := FindFrom(s, sep, 0);
    if found.Some? {
      var i := found.value;
      var rest := s[i + |sep|..];
      var parts := Split(s, sep);
      assert parts == [s[..i]] + Split(rest, sep);
      assert |parts| >= 2;
      assert parts[1..] == Split(rest, sep);
      JoinSplit(rest, sep);
      calc {
        Join(parts, sep);
        parts[0] + sep + Join(parts[1..], sep);
        s[..i] + sep + rest;
        { assert s[i..i + |sep|] == sep; }
        s[..i] + s[i..i + |sep|] + s[i + |sep|..];
        s;
      }
    }
  }

  /** No part of a split contains the separator. */
  lemma {:induction false} SplitPartsFree(s: string, sep: string)
    requires sep != []
    ensures forall k, j :: 0 <= k < |Split(s, sep)| ==> !OccursAt(Split(s, sep)[k], sep, j)
    decreases |s|
  {
    match FindFrom(s, sep, 0)
    case None =>
    case Some(i) =>
      var rest := s[i + |sep|..];
      SplitPartsFree(rest, sep);
      forall j | OccursAt(s[..i], sep, j)
        ensures false
      {
        assert s[..i][j..j + |sep|] == s[j..j + |sep|];
        assert OccursAt(s, sep, j);
      }
      assert Split(s, sep)[1..] == Split(rest, sep);
  }

  /**
   * With a one-character separator, the last part of a split is whatever
   * follows the last occurrence of that character.
   */
  lemma {:induction false} LastPartAfterSeparator(a: string, c: char, b: string)
    requires c !in b
    ensures Split(a + [c] + b, [c])[|Split(a + [c] + b, [c])| - 1] == b
    decreases |a|
  {
    var s := a + [c] + b;
    assert OccursAt(s, [c], |a|);
    match FindFrom(s, [c], 0)
    case None =>
    case Some(i) =>
      if i == |a| {
        assert s[i + 1..] == b;
        forall m | 0 <= m < |b|
          ensures !OccursAt(b, [c], m)
        {
          assert b[m] in b;
          assert b[m..m + 1][0] == b[m];
        }
        assert FindFrom(b, [c], 0).None?;
      } else {
        assert i < |a|;
        assert s[i + 1..] == a[i + 1..] + [c] + b;
        LastPartAfterSeparator(a[i + 1..], c, b);
      }
  }

  predicate IsDigit(ch: char)
  {
    '0' <= ch <= '9'
  }

  predicate AllDigits(t: string)
  {
    forall i :: 0 <= i < |t| ==> IsDigit(t[i])
  }

  /** The value of a run of decimal digits, most significant first. */
  function DigitsValue(t: string): nat
    requires AllDigits(t)
  {
    if t == [] then 0 else 10 * DigitsValue(t[..|t| - 1]) + (t[|t| - 1] as int - '0' as int)
  }

  /** The texts int() accepts here: an optional sign and at least one decimal digit. */
  predicate IsIntLiteral(t: string)
  {
    (|t| >= 1 && AllDigits(t)) ||
    (|t| >= 2 && (t[0] == '+' || t[0] == '-') && AllDigits(t[1..]))
  }

  /** int(t) for a text: the value of the literal, or ValueError naming the text. */
  function ParseInt(t: string): (r: Result<int, Failure>)
    ensures r.Ok? <==> IsIntLiteral(t)
    ensures r.Err? ==> r.error == InvalidLiteral(t)
    ensures r.Ok? && t[0] != '-' ==> r.value >= 0
  {
    if |t| >= 1 && AllDigits(t) then Ok(DigitsValue(t))
    else if |t| >= 2 && t[0] == '+' && AllDigits(t[1..]) then Ok(DigitsValue(t[1..]))
    else if |t| >= 2 && t[0] == '-' && AllDigits(t[1..]) then Ok(0 - DigitsValue(t[1..]))
    else Err(InvalidLiteral(t))
  }

  function DigitChar(d: nat): (ch: char)
    requires d < 10
    ensures IsDigit(ch) && ch as int - '0' as int == d
  {
    ('0' as int + d) as char
  }

  /** str(n) for a non-negative integer: its decimal digits without leading zeros. */
  function Decimal(n: nat): (s: string)
    ensures |s| >= 1 && AllDigits(s) && DigitsValue(s) == n
    ensures s[0] == '0' ==> s == "0"
  {
    if n < 10 then [DigitChar(n)]
    else
      var high := Decimal(n / 10);
      var s := high + [DigitChar(n % 10)];
      assert s[..|s| - 1] == high;
      s
  }

  function Zeros(k: nat): (z: string)
    ensures |z| == k && forall i :: 0 <= i < k ==> z[i] == '0'
  {
    if k == 0 then [] else Zeros(k - 1) + "0"
  }

  /**
   * str.zfill(width): left-pad with '0' to at least `width` characters,
   * keeping a leading sign in front; never shortens the text.
   */
  function ZFill(s: string, width: int): (r: string)
    ensures |r| == if |s| >= width then |s| else width
    ensures |s| >= width ==> r == s
  {
    if |s| >= width then s
    else if |s| > 0 && (s[0] == '+' || s[0] == '-') then [s[0]] + Zeros(width - |s|) + s[1..]
    else Zeros(width - |s|) + s
  }

  /** Leading zeros do not change the value of a run of digits. */
  lemma {:induction false} LeadingZeros(k: nat, t: string)
    requires AllDigits(t)
    ensures AllDigits(Zeros(k) + t) && DigitsValue(Zeros(k) + t) == DigitsValue(t)
    decreases |t|
  {
    var z := Zeros(k) + t;
    if t == [] {
      assert z == Zeros(k);
      ZerosValue(k);
    } else {
      assert z[..|z| - 1] == Zeros(k) + t[..|t| - 1];
      LeadingZeros(k, t[..|t| - 1]);
    }
  }

  lemma {:induction false} ZerosValue(k: nat)
    ensures AllDigits(Zeros(k)) && DigitsValue(Zeros(k)) == 0
  {
    if k > 0 {
      assert Zeros(k)[..k - 1] == Zeros(k - 1);
      ZerosValue(k - 1);
    }
  }

  /** int() reads back the number str() wrote. */
  lemma ParseDecimal(n: nat)
    ensures ParseInt(Decimal(n)) == Ok(n)
  {
  }

  /** int() reads a signed literal: "-" + str(n) is -n and "+" + str(n) is n. */
  lemma ParseSigned(n: nat)
    ensures ParseInt("-" + Decimal(n)) == Ok(-(n as int))
    ensures ParseInt("+" + Decimal(n)) == Ok(n)
  {
    var d := Decimal(n);
    assert ("-" + d)[1..] == d && ("+" + d)[1..] == d;
    assert ("-" + d)[0] == '-' && ("+" + d)[0] == '+';
    assert !IsDigit('-') && !IsDigit('+');
  }

  /** zfill keeps an integer literal's value: int(t.zfill(w)) == int(t). */
  lemma ParseZFill(t: string, width: int)
    requires IsIntLiteral(t)
    ensures ParseInt(ZFill(t, width)) == ParseInt(t)
  {
    if |t| < width {
      if t[0] == '+' || t[0] == '-' {
        assert t == [t[0]] + t[1..];
        ParsePaddedSigned(t[0], t[1..], width - |t|);
      } else {
        ParsePaddedDigits(t, width - |t|);
      }
    }
  }

  lemma ParsePaddedDigits(t: string, k: nat)
    requires |t| >= 1 && AllDigits(t)
    ensures ParseInt(Zeros(k) + t) == ParseInt(t)
  {
    LeadingZeros(k, t);
  }

  lemma ParsePaddedSigned(sign: char, t: string, k: nat)
    requires sign == '+' || sign == '-'
    requires |t| >= 1 && AllDigits(t)
    ensures ParseInt([sign] + Zeros(k) + t) == ParseInt([sign] + t)
  {
    LeadingZeros(k, t);
    var padded, plain := [sign] + Zeros(k) + t, [sign] + t;
    assert padded[0] == sign && padded[1..] == Zeros(k) + t;
    assert plain[0] == sign && plain[1..] == t;
  }

  /** Lexicographic order by code point, as Python compares strings. */
  predicate LexLess(a: string, b: string)
  {
    if a == [] then b != []
    else b != [] && (a[0] < b[0] || (a[0] == b[0] && LexLess(a[1..], b[1..])))
  }

  function Pow10(k: nat): (p: nat)
    ensures p >= 1
  {
    if k == 0 then 1 else 10 * Pow10(k - 1)
  }

  /** A run of k digits is worth less than 10^k. */
  lemma {:induction false} DigitsValueBound(t: string)
    requires AllDigits(t)
    ensures DigitsValue(t) < Pow10(|t|)
  {
    if t != [] {
      DigitsValueBound(t[..|t| - 1]);
    }
  }

  /** Reading a run of digits from the front: the first digit weighs 10^(k-1). */
  lemma {:induction false} DigitsValueFront(t: string)
    requires t != [] && AllDigits(t)
    ensures DigitsValue(t) == (t[0] as int - '0' as int) * Pow10(|t| - 1) + DigitsValue(t[1..])
  {
    if |t| > 1 {
      var init, rest := t[..|t| - 1], t[1..];
      var first, last := t[0] as int - '0' as int, t[|t| - 1] as int - '0' as int;
      var p := Pow10(|t| - 2);
      DigitsValueFront(init);
      assert init[1..] == rest[..|rest| - 1];
      assert init[0] == t[0];
      assert DigitsValue(rest) == 10 * DigitsValue(init[1..]) + last;
      assert DigitsValue(t) == 10 * DigitsValue(init) + last;
      assert Pow10(|t| - 1) == 10 * p;
      ShiftDigit(first, p, DigitsValue(init[1..]), last);
    }
  }

  /** 10 * (f * p + a) + l == f * (10 * p) + (10 * a + l). */
  lemma ShiftDigit(f: int, p: int, a: int, l: int)
    ensures 10 * (f * p + a) + l == f * (10 * p) + (10 * a + l)
  {
    assert 10 * (f * p) == f * (10 * p);
  }

  /** str(n) has at most k digits when n < 10^k. */
  lemma {:induction false} DecimalLength(n: nat, k: nat)
    requires k >= 1 && n < Pow10(k)
    ensures |Decimal(n)| <= k
  {
    if n >= 10 {
      DecimalLength(n / 10, k - 1);
    }
  }

  /** Between runs of digits of the same length, the smaller number is the lexicographically smaller text. */
  lemma {:induction false} LexLessDigits(s: string, t: string)
    requires |s| == |t| && AllDigits(s) && AllDigits(t)
    requires DigitsValue(s) < DigitsValue(t)
    ensures LexLess(s, t)
  {
    assert s != [];
    DigitsValueFront(s);
    DigitsValueFront(t);
    var p := Pow10(|s| - 1);
    var ds, dt := s[0] as int - '0' as int, t[0] as int - '0' as int;
    if s[0] == t[0] {
      assert DigitsValue(s[1..]) < DigitsValue(t[1..]);
      LexLessDigits(s[1..], t[1..]);
    } else if s[0] > t[0] {
      DigitsValueBound(t[1..]);
      MulStep(dt, ds, p);
      assert false;
    }
  }

  /** A larger digit in front outweighs whatever follows a smaller one. */
  lemma MulStep(a: nat, b: nat, p: nat)
    requires a < b
    ensures a * p + p <= b * p
  {
    calc {
      a * p + p;
      (a + 1) * p;
    <= { assert a + 1 <= b; }
      b * p;
    }
  }

  /** A lexicographic difference inside texts of equal length survives appending anything. */
  lemma {:induction false} LexLessAppend(s: string, t: string, u: string, v: string)
    requires |s| == |t| && LexLess(s, t)
    ensures LexLess(s + u, t + v)
  {
    if s[0] == t[0] && !(s[0] < t[0]) {
      LexLessAppend(s[1..], t[1..], u, v);
      assert (s + u)[1..] == s[1..] + u;
      assert (t + v)[1..] == t[1..] + v;
    }
  }

  /** A common prefix does not change the lexicographic comparison. */
  lemma {:induction false} LexLessPrefix(p: string, s: string, t: string)
    requires LexLess(s, t)
    ensures LexLess(p + s, p + t)
  {
    if p == [] {
      assert p + s == s && p + t == t;
    } else {
      LexLessPrefix(p[1..], s, t);
      assert (p + s)[1..] == p[1..] + s;
      assert (p + t)[1..] == p[1..] + t;
    }
  }
}
