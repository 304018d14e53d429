/** String helpers shared by the modules: std::string::find, prefix tests,
    boost::trim and decimal formatting/parsing (printf "%d",
    boost::lexical_cast<int>, operator>> on size_t). */
module Strings {
  import opened Wrappers

  predicate IsPrefix(p: string, s: string) {
    |p| <= |s| && s[..|p|] == p
  }

  /** No occurrence of `c` in s[from..to). */
  predicate Absent(s: string, c: char, from: int, to: int)
    requires 0 <= from && to <= |s|
  {
    forall i :: from <= i < to ==> s[i] != c
  }

  /** std::string::find(c, from), with npos as None. */
  function Find(s: string, c: char, from: nat): (r: Option<nat>)
    ensures r.Some? ==> from <= r.value < |s| && s[r.value] == c && Absent(s, c, from, r.value)
    ensures r.None? ==> from >= |s| || Absent(s, c, from, |s|)
    decreases |s| - from
  {
    if from >= |s| then None
    else if s[from] == c then Some(from)
    else Find(s, c, from + 1)
  }

  /** Find is determined by its contract: the first occurrence at or after
      `from`. */
  lemma FindFirst(s: string, c: char, from: nat, k: nat)
    requires from <= k < |s| && s[k] == c && Absent(s, c, from, k)
    ensures Find(s, c, from) == Some(k)
  {
  }

  /** FindFirst for every candidate at once. */
  lemma FindFirstAll(s: string, c: char)
    ensures forall k :: 0 <= k < |s| && s[k] == c && Absent(s, c, 0, k) ==> Find(s, c, 0) == Some(k)
  {
    forall k | 0 <= k < |s| && s[k] == c && Absent(s, c, 0, k)
      ensures Find(s, c, 0) == Some(k)
    {
      FindFirst(s, c, 0, k);
    }
  }

  lemma FindAbsent(s: string, c: char, from: nat)
    requires from >= |s| || Absent(s, c, from, |s|)
    ensures Find(s, c, from) == None
  {
  }

  /** Occurrence of `pat` at position i of s. */
  predicate At(s: string, pat: string, i: nat) {
    i + |pat| <= |s| && s[i..i + |pat|] == pat
  }

  /** std::string::find(pat, from): the first i >= from where pat occurs. */
  function FindStr(s: string, pat: string, from: nat): (r: Option<nat>)
    ensures r.Some? ==> from <= r.value && r.value + |pat| <= |s|
    decreases |s| - from
  {
    if from + |pat| > |s| then None
    else if s[from..from + |pat|] == pat then Some(from)
    else FindStr(s, pat, from + 1)
  }

  /** The result of find is the first occurrence at or after from. */
  lemma {:induction false} FindStrSpec(s: string, pat: string, from: nat)
    ensures FindStr(s, pat, from).Some? ==> At(s, pat, FindStr(s, pat, from).value)
    ensures FindStr(s, pat, from).Some? ==> forall i :: from <= i < FindStr(s, pat, from).value ==> !At(s, pat, i)
    ensures FindStr(s, pat, from).None? ==> forall i :: from <= i ==> !At(s, pat, i)
    decreases |s| - from
  {
    if from + |pat| <= |s| && s[from..from + |pat|] != pat {
      FindStrSpec(s, pat, from + 1);
    }
  }

  lemma {:induction false} FindStrFirst(s: string, pat: string, from: nat, k: nat)
    requires from <= k && At(s, pat, k)
    requires forall i :: from <= i < k ==> !At(s, pat, i)
    ensures FindStr(s, pat, from) == Some(k)
    decreases k - from
  {
    if from < k {
      assert !At(s, pat, from) && from + |pat| <= |s|;
      FindStrFirst(s, pat, from + 1, k);
    }
  }

  /** The characters std::isspace accepts in the "C" locale. */
  predicate IsSpace(c: char) {
    c == ' ' || c == '\t' || c == '\n' || c == '\r' || c as int == 0x0b || c as int == 0x0c
  }

  function TrimLeft(s: string): (r: string)
    ensures |r| <= |s| && r == s[|s| - |r|..]
    ensures r == [] || !IsSpace(r[0])
    ensures forall i :: 0 <= i < |s| - |r| ==> IsSpace(s[i])
  {
    if s != [] && IsSpace(s[0]) then TrimLeft(s[1..]) else s
  }

  function TrimRight(s: string): (r: string)
    ensures |r| <= |s| && r == s[..|r|]
    ensures r == [] || !IsSpace(r[|r| - 1])
    ensures forall i :: |r| <= i < |s| ==> IsSpace(s[i])
  {
    if s != [] && IsSpace(s[|s| - 1]) then TrimRight(s[..|s| - 1]) else s
  }

  /** boost::trim: drop leading and trailing whitespace.  The result is the
      infix of s between a whitespace-only head and a whitespace-only tail. */
  function Trim(s: string): (r: string)
    ensures r == [] || (!IsSpace(r[0]) && !IsSpace(r[|r| - 1]))
    ensures |r| <= |s|
    ensures exists i :: TrimmedAt(s, r, i)
  {
    var l := TrimLeft(s);
    var r := TrimRight(l);
    var i := |s| - |l|;
    TrimInfix(s, l, r, i);
    assert TrimmedAt(s, r, i);
    r
  }

  /** r is the infix of s at i, with only whitespace before and after it. */
  predicate TrimmedAt(s: string, r: string, i: int) {
    0 <= i <= i + |r| <= |s| && r == s[i..i + |r|] &&
    (forall k :: 0 <= k < i ==> IsSpace(s[k])) &&
    (forall k :: i + |r| <= k < |s| ==> IsSpace(s[k]))
  }

  /** The two trims leave the infix s[i..i + |r|] between whitespace. */
  lemma TrimInfix(s: string, l: string, r: string, i: nat)
    requires l == TrimLeft(s) && r == TrimRight(l) && i == |s| - |l|
    ensures 0 <= i <= i + |r| <= |s| && r == s[i..i + |r|]
    ensures forall k :: 0 <= k < i ==> IsSpace(s[k])
    ensures forall k :: i + |r| <= k < |s| ==> IsSpace(s[k])
  {
    PrefixOfSuffix(s, l, r, i);
    SpaceTail(s, l, |r|, i);
  }

  /** A prefix of the suffix s[i..] is the infix of s at i. */
  lemma PrefixOfSuffix(s: string, l: string, r: string, i: nat)
    requires i <= |s| && l == s[i..] && |r| <= |l| && r == l[..|r|]
    ensures i + |r| <= |s| && r == s[i..i + |r|]
  {
    forall t | 0 <= t < |r|
      ensures r[t] == s[i..i + |r|][t]
    {
      assert r[t] == l[t];
    }
  }

  /** Whitespace after position n of the suffix s[i..] is whitespace after
      position i + n of s. */
  lemma SpaceTail(s: string, l: string, n: nat, i: nat)
    requires i <= |s| && l == s[i..] && n <= |l|
    requires forall j :: n <= j < |l| ==> IsSpace(l[j])
    ensures forall k :: i + n <= k < |s| ==> IsSpace(s[k])
  {
    forall k | i + n <= k < |s|
      ensures IsSpace(s[k])
    {
      assert s[k] == l[k - i];
    }
  }

  // ---------------------------------------------------------------- decimal

  predicate IsDigit(c: char) { '0' <= c <= '9' }

  predicate AllDigits(s: string) { forall i :: 0 <= i < |s| ==> IsDigit(s[i]) }

  function DigitChar(d: nat): (c: char)
    requires d < 10
    ensures IsDigit(c) && (c as int) - ('0' as int) == d
  {
    ('0' as int + d) as char
  }

  /** Value of a digit string, most significant digit first. */
  function DigitsValue(s: string): nat
    requires AllDigits(s)
  {
    if s == [] then 0
    else DigitsValue(s[..|s| - 1]) * 10 + ((s[|s| - 1] as int) - ('0' as int))
  }

  /** printf("%d") of a non-negative value: no leading zeros. */
  function NatToDecimal(n: nat): (r: string)
    ensures |r| >= 1 && AllDigits(r)
    ensures r[0] == '0' ==> n == 0
  {
    if n < 10 then [DigitChar(n)] else NatToDecimal(n / 10) + [DigitChar(n % 10)]
  }

  /** printf("%d"): a '-' before the magnitude of a negative value. */
  function IntToDecimal(n: int): (r: string)
    ensures |r| >= 1
    ensures n < 0 <==> r[0] == '-'
  {
    if n < 0 then "-" + NatToDecimal(-n) else NatToDecimal(n)
  }

  lemma {:induction false} NatToDecimalValue(n: nat)
    ensures DigitsValue(NatToDecimal(n)) == n
  {
    if n >= 10 {
      var s := NatToDecimal(n);
      NatToDecimalValue(n / 10);
      assert s[..|s| - 1] == NatToDecimal(n / 10);
    }
  }

  predicate InInt32(n: int) { -0x8000_0000 <= n < 0x8000_0000 }

  /** boost::lexical_cast<int>: an optional sign, then one or more digits
      and nothing else, in the range of a 32-bit int. */
  function ParseInt(s: string): (r: Result<int>)
    ensures r.Ok? ==> InInt32(r.value)
    ensures r.Ok? ==> s != [] && (s[0] == '-' <==> r.value < 0 || (r.value == 0 && s[0] == '-'))
  {
    if s == [] then Err(BadLexicalCast)
    else
      var neg := s[0] == '-';
      var digits := if s[0] == '-' || s[0] == '+' then s[1..] else s;
      if digits == [] || !AllDigits(digits) then Err(BadLexicalCast)
      else
        var m: int := DigitsValue(digits);
        var v := if neg then -m else m;
        if InInt32(v) then Ok(v) else Err(BadLexicalCast)
  }

  /** The decimal form of every 32-bit int parses back to it. */
  lemma ParseIntRoundTrip(n: int)
    requires InInt32(n)
    ensures ParseInt(IntToDecimal(n)) == Ok(n)
  {
    if n < 0 {
      NegativeRoundTrip(n, NatToDecimal(-n), IntToDecimal(n));
    } else {
      NatToDecimalValue(n);
      var s := NatToDecimal(n);
      assert s[0] != '-' && s[0] != '+';
    }
  }

  lemma NegativeRoundTrip(n: int, d: string, s: string)
    requires InInt32(n) && n < 0 && d == NatToDecimal(-n) && s == IntToDecimal(n)
    ensures ParseInt(s) == Ok(n)
  {
    NatToDecimalValue(-n);
    assert s == "-" + d;
    assert s[0] == '-' && s[1..] == d;
  }

  /** k '0' characters. */
  function Zeros(k: nat): (r: string)
    ensures |r| == k && AllDigits(r)
  {
    seq(k, _ => '0')
  }

  /** The sign character a text starts with, if any. */
  function SignOf(s: string): (p: string)
    ensures p == "" || p == "+" || p == "-"
  {
    if s != [] && s[0] == '-' then "-" else if s != [] && s[0] == '+' then "+" else ""
  }

  /** Number of redundant leading zeros of a digit string: all of its
      leading '0's but the last digit. */
  function LeadingZeros(d: string): (k: nat)
    ensures d != [] ==> k < |d|
  {
    if |d| > 1 && d[0] == '0' then 1 + LeadingZeros(d[1..]) else 0
  }

  /** Every text lexical_cast<int> accepts is a sign, zeros and then the
      printed magnitude of its value, and the sign agrees with the value. */
  lemma ParseIntForm(s: string)
    requires ParseInt(s).Ok?
    ensures var v := ParseInt(s).value; var n := if v < 0 then -v else v;
      s == SignOf(s) + Zeros(LeadingZeros(s[|SignOf(s)|..])) + NatToDecimal(n) &&
      v == (if SignOf(s) == "-" then -n else n)
  {
    var p := SignOf(s);
    var d := s[|p|..];
    assert s == p + d;
    assert d == (if s[0] == '-' || s[0] == '+' then s[1..] else s);
    ParseSignDigits(p, d);
    DigitsForm(d);
    ConcatAssoc(p, Zeros(LeadingZeros(d)), NatToDecimal(DigitsValue(d)));
  }

  /** A digit string is its redundant zeros, then the printed form of its value. */
  lemma DigitsForm(d: string)
    requires d != [] && AllDigits(d)
    ensures d == Zeros(LeadingZeros(d)) + NatToDecimal(DigitsValue(d))
  {
    var k := LeadingZeros(d);
    SplitLeading(d);
    CanonicalDecimal(d[k..]);
    DigitsValueZeros(k, d[k..]);
  }

  lemma ConcatAssoc(a: string, b: string, c: string)
    ensures a + (b + c) == a + b + c
  {
  }

  /** lexical_cast<int> accepts every sign, zeros and decimal digits,
      exactly when the value fits in 32 bits, and reads that value. */
  lemma ParseIntAccepts(p: string, k: nat, n: nat)
    requires p == "" || p == "+" || p == "-"
    ensures var v := if p == "-" then -(n as int) else n;
      ParseInt(p + Zeros(k) + NatToDecimal(n)) == if InInt32(v) then Ok(v) else Err(BadLexicalCast)
  {
    var d := Zeros(k) + NatToDecimal(n);
    assert p + Zeros(k) + NatToDecimal(n) == p + d;
    DigitsValueZeros(k, NatToDecimal(n));
    NatToDecimalValue(n);
    ParseSignDigits(p, d);
  }

  /** ParseInt of a sign and a non-empty digit string. */
  lemma ParseSignDigits(p: string, d: string)
    requires p == "" || p == "+" || p == "-"
    requires d != [] && AllDigits(d)
    ensures var m: int := DigitsValue(d); var v := if p == "-" then -m else m;
      ParseInt(p + d) == if InInt32(v) then Ok(v) else Err(BadLexicalCast)
  {
    var s := p + d;
    assert IsDigit(d[0]);
    if p != "" {
      assert s[0] == p[0] && s[1..] == d;
    } else {
      assert s == d;
    }
  }

  /** Leading zeros add nothing to the value. */
  lemma {:induction false} DigitsValueZeros(k: nat, d: string)
    requires AllDigits(d)
    ensures AllDigits(Zeros(k) + d) && DigitsValue(Zeros(k) + d) == DigitsValue(d)
  {
    var t := Zeros(k) + d;
    assert AllDigits(t) by {
      forall i | 0 <= i < |t| ensures IsDigit(t[i]) {
        if i < k { assert t[i] == Zeros(k)[i]; } else { assert t[i] == d[i - k]; }
      }
    }
    if d == [] {
      assert t == Zeros(k);
      ZerosValue(k);
    } else {
      var d' := d[..|d| - 1];
      assert t[..|t| - 1] == Zeros(k) + d';
      assert t[|t| - 1] == d[|d| - 1];
      DigitsValueZeros(k, d');
    }
  }

  lemma {:induction false} ZerosValue(k: nat)
    ensures DigitsValue(Zeros(k)) == 0
  {
    if k > 0 {
      assert Zeros(k)[..k - 1] == Zeros(k - 1);
      ZerosValue(k - 1);
    }
  }

  /** A digit string is its redundant zeros, then digits with none. */
  lemma {:induction false} SplitLeading(d: string)
    requires d != [] && AllDigits(d)
    ensures var k := LeadingZeros(d);
      d == Zeros(k) + d[k..] && (|d| - k > 1 ==> d[k] != '0')
  {
    var k := LeadingZeros(d);
    if |d| > 1 && d[0] == '0' {
      SplitLeading(d[1..]);
      assert d == [d[0]] + d[1..];
      assert Zeros(k) == ['0'] + Zeros(k - 1);
    }
  }

  /** A digit string with no redundant zero is the printed form of its value. */
  lemma {:induction false} CanonicalDecimal(r: string)
    requires r != [] && AllDigits(r) && (|r| > 1 ==> r[0] != '0')
    ensures NatToDecimal(DigitsValue(r)) == r
  {
    var c := r[|r| - 1];
    var d := (c as int) - ('0' as int);
    if |r| > 1 {
      var r' := r[..|r| - 1];
      DigitsPositive(r');
      CanonicalDecimal(r');
      var v := DigitsValue(r);
      assert v == DigitsValue(r') * 10 + d;
      assert v / 10 == DigitsValue(r') && v % 10 == d;
      assert DigitChar(d) == c;
      assert r == r' + [c];
    } else {
      assert DigitChar(d) == c;
    }
  }

  lemma {:induction false} DigitsPositive(r: string)
    requires r != [] && AllDigits(r) && r[0] != '0'
    ensures DigitsValue(r) > 0
  {
    if |r| > 1 {
      DigitsPositive(r[..|r| - 1]);
    }
  }

  // ---------------------------------------------------------------- split

  /** The pieces of s between occurrences of `sep` (at least one piece). */
  function Split(s: string, sep: char): (r: seq<string>)
    ensures |r| >= 1
    ensures forall k, i :: 0 <= k < |r| && 0 <= i < |r[k]| ==> r[k][i] != sep
    decreases |s|
  {
    match Find(s, sep, 0)
    case None => [s]
    case Some(i) => [s[..i]] + Split(s[i + 1..], sep)
  }

  lemma SplitNoSep(a: string, sep: char)
    requires Absent(a, sep, 0, |a|)
    ensures Split(a, sep) == [a]
  {
    FindAbsent(a, sep, 0);
  }

  lemma SplitCons(a: string, sep: char, rest: string)
    requires Absent(a, sep, 0, |a|)
    ensures Split(a + [sep] + rest, sep) == [a] + Split(rest, sep)
  {
    var s := a + [sep] + rest;
    FindFirst(s, sep, 0, |a|);
    assert s[..|a|] == a && s[|a| + 1..] == rest;
  }
}
