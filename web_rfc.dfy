/** The HTTP helpers of 3rd/Simple-Web-Extra/server_extra_rfc.hpp:
    percent-encoding of RFC 3986 sections 2.1 and 2.3, the query-string
    dictionary (RFC 3986 section 3.4) and the multipart/form-data body
    parser (RFC 2046 section 5.1.1, RFC 7578 section 4.2).  Strings are
    byte strings: every character is below 256. */
module WebRfc {
  import opened Wrappers
  import opened Strings

  predicate IsBytes(s: string) {
    forall i :: 0 <= i < |s| ==> s[i] as int < 256
  }

  // ------------------------------------------------------------ escaping

  /** The unreserved characters of RFC 3986 section 2.3. */
  predicate Unreserved(c: char) {
    ('a' <= c <= 'z') || ('A' <= c <= 'Z') || ('0' <= c <= '9') ||
    c == '-' || c == '.' || c == '_' || c == '~'
  }

  /** hex_table: upper-case hexadecimal digits. */
  function HexDigit(d: nat): (c: char)
    requires d < 16
  {
    if d < 10 then ('0' as int + d) as char else ('A' as int + d - 10) as char
  }

  /** dec_to_hex: the value of a hexadecimal digit of either case, or -1. */
  function HexValue(c: char): (v: int)
    ensures -1 <= v < 16
  {
    if '0' <= c <= '9' then c as int - '0' as int
    else if 'A' <= c <= 'F' then c as int - 'A' as int + 10
    else if 'a' <= c <= 'f' then c as int - 'a' as int + 10
    else -1
  }

  lemma HexDigitValue(d: nat)
    requires d < 16
    ensures HexValue(HexDigit(d)) == d
  {
  }

  /** The escape of one byte: itself if unreserved, else '%' and two digits. */
  function EscapeByte(c: char): (r: string)
    requires c as int < 256
  {
    if Unreserved(c) then [c] else ['%', HexDigit(c as int / 16), HexDigit(c as int % 16)]
  }

  function Escape(s: string): (r: string)
    requires IsBytes(s)
  {
    if s == [] then [] else EscapeByte(s[0]) + Escape(s[1..])
  }

  /** The number of bytes of s that are not unreserved. */
  function EscapedCount(s: string): nat {
    if s == [] then 0 else (if Unreserved(s[0]) then 0 else 1) + EscapedCount(s[1..])
  }

  lemma {:induction false} EscapeConcat(a: string, b: string)
    requires IsBytes(a) && IsBytes(b)
    ensures IsBytes(a + b) && Escape(a + b) == Escape(a) + Escape(b)
  {
    if a == [] {
      assert a + b == b;
    } else {
      assert (a + b)[0] == a[0];
      assert (a + b)[1..] == a[1..] + b;
      EscapeConcat(a[1..], b);
      ConcatAssoc(EscapeByte(a[0]), Escape(a[1..]), Escape(b));
    }
  }

  /** Escaping one more byte of s appends the escape of that byte. */
  lemma EscapeSnoc(s: string, i: nat)
    requires IsBytes(s) && i < |s|
    ensures IsBytes(s[..i]) && IsBytes(s[..i + 1])
    ensures Escape(s[..i + 1]) == Escape(s[..i]) + EscapeByte(s[i])
  {
    assert s[..i + 1] == s[..i] + [s[i]];
    EscapeConcat(s[..i], [s[i]]);
    assert Escape([s[i]]) == EscapeByte(s[i]) + Escape([]);
  }

  /** Escaped length = input length + 2 x the escaped bytes; the output is
      made of unreserved characters and '%'. */
  lemma {:induction false} EscapeShape(s: string)
    requires IsBytes(s)
    ensures |Escape(s)| == |s| + 2 * EscapedCount(s)
    ensures forall i :: 0 <= i < |Escape(s)| ==> Unreserved(Escape(s)[i]) || Escape(s)[i] == '%'
  {
    if s != [] {
      EscapeShape(s[1..]);
      var e := Escape(s);
      var h := EscapeByte(s[0]);
      assert e == h + Escape(s[1..]);
      forall i | 0 <= i < |e| ensures Unreserved(e[i]) || e[i] == '%' {
        if i >= |h| { assert e[i] == Escape(s[1..])[i - |h|]; }
      }
    }
  }

  /** The escape of a byte string is itself a byte string. */
  lemma EscapeIsBytes(s: string)
    requires IsBytes(s)
    ensures IsBytes(Escape(s))
  {
    EscapeShape(s);
  }

  /** query_unescape, as a recursion on what is left of the input: a '%'
      and two hexadecimal digits become one byte, and the last two bytes
      are always copied. */
  function Unescape(s: string): (r: string)
    ensures |r| <= |s|
  {
    if |s| < 3 then s
    else if s[0] == '%' && HexValue(s[1]) != -1 && HexValue(s[2]) != -1 then
      [(HexValue(s[1]) * 16 + HexValue(s[2])) as char] + Unescape(s[3..])
    else [s[0]] + Unescape(s[1..])
  }

  /** A byte other than '%' is copied in front of whatever follows it. */
  lemma UnescapeLiteral(c: char, t: string)
    requires c != '%'
    ensures Unescape([c] + t) == [c] + Unescape(t)
  {
    if |t| < 2 {
      assert Unescape(t) == t;
    } else {
      assert ([c] + t)[1..] == t;
    }
  }

  lemma {:induction false} UnescapeEscape(s: string)
    requires IsBytes(s)
    ensures Unescape(Escape(s)) == s
  {
    if s != [] {
      UnescapeEscape(s[1..]);
      UnescapeByte(s[0], Escape(s[1..]));
      assert s == [s[0]] + s[1..];
    }
  }

  /** The escape of one byte is decoded back in front of whatever follows. */
  lemma UnescapeByte(c: char, rest: string)
    requires c as int < 256
    ensures Unescape(EscapeByte(c) + rest) == [c] + Unescape(rest)
  {
    if Unreserved(c) {
      UnescapeLiteral(c, rest);
    } else {
      UnescapeTriple(c, rest);
    }
  }

  /** A byte escaped as '%' and two digits is decoded back in front of
      whatever follows it. */
  lemma UnescapeTriple(c: char, rest: string)
    requires c as int < 256 && !Unreserved(c)
    ensures Unescape(EscapeByte(c) + rest) == [c] + Unescape(rest)
  {
    var e := EscapeByte(c) + rest;
    HexDigitValue(c as int / 16);
    HexDigitValue(c as int % 16);
    assert e[3..] == rest;
  }

  /** A '%' in one of the last two positions is never decoded. */
  lemma UnescapeShortTail(s: string)
    requires |s| < 3
    ensures Unescape(s) == s
  {
  }

  /** query_escape: writes into a buffer three times the input size. */
  method QueryEscape(s: string) returns (r: string)
    requires IsBytes(s)
    ensures r == Escape(s)
  {
    var tmp := new char[|s| * 3];
    var end: nat := 0;
    var i := 0;
    while i < |s|
      invariant 0 <= i <= |s| && IsBytes(s[..i]) && tmp.Length == |s| * 3
      invariant end <= 3 * i && tmp[..end] == Escape(s[..i])
    {
      EscapeSnoc(s, i);
      end := PutEscaped(tmp, end, s[i]);
      i := i + 1;
    }
    assert s[..i] == s;
    r := tmp[..end];
  }

  /** The body of the loop of query_escape: the escape of c written at end. */
  method PutEscaped(tmp: array<char>, end: nat, c: char) returns (end': nat)
    requires c as int < 256 && end + 3 <= tmp.Length
    modifies tmp
    ensures end' == end + |EscapeByte(c)| && end' <= end + 3
    ensures tmp[..end'] == old(tmp[..end]) + EscapeByte(c)
  {
    if Unreserved(c) {
      tmp[end] := c;
      end' := end + 1;
    } else {
      tmp[end] := '%';
      tmp[end + 1] := HexDigit(c as int / 16);
      tmp[end + 2] := HexDigit(c as int % 16);
      end' := end + 3;
    }
    assert tmp[..end'] == tmp[..end] + tmp[end..end'];
  }

  predicate Decodable(s: string, i: nat)
    requires i + 2 < |s|
  {
    s[i] == '%' && HexValue(s[i + 1]) != -1 && HexValue(s[i + 2]) != -1
  }

  /** One step of the decoding loop at position i of s: byte b is written
      and k bytes are consumed. */
  lemma UnescapeAt(s: string, i: nat, b: char, k: nat)
    requires i + 2 < |s|
    requires Decodable(s, i) ==> b == (HexValue(s[i + 1]) * 16 + HexValue(s[i + 2])) as char && k == 3
    requires !Decodable(s, i) ==> b == s[i] && k == 1
    ensures Unescape(s[i..]) == [b] + Unescape(s[i + k..])
  {
    var rest := s[i..];
    assert rest[0] == s[i] && rest[1] == s[i + 1] && rest[2] == s[i + 2];
    assert rest[k..] == s[i + k..];
  }

  lemma ConcatAssoc(a: string, b: string, c: string)
    ensures a + (b + c) == (a + b) + c
  {
  }

  /** query_unescape: the decoding loop while three or more bytes remain,
      then a copy of the rest. */
  method QueryUnescape(s: string) returns (r: string)
    ensures r == Unescape(s)
  {
    var tmp := new char[|s|];
    var end := 0;
    var i := 0;
    ghost var done: string := [];
    while i + 2 < |s|
      invariant 0 <= end <= i <= |s| && end == |done|
      invariant tmp[..end] == done
      invariant done + Unescape(s[i..]) == Unescape(s)
    {
      var b, k := DecodeAt(s, i);
      ConcatAssoc(done, [b], Unescape(s[i + k..]));
      tmp[end] := b;
      done := done + [b];
      end := end + 1;
      i := i + k;
    }
    UnescapeShortTail(s[i..]);
    CopyRest(tmp, end, s, i, done);
    r := tmp[..|s| - i + end];
  }

  /** One step of the decoding loop: a '%' and two hexadecimal digits make
      one byte and three are consumed, anything else is copied. */
  method DecodeAt(s: string, i: nat) returns (b: char, k: nat)
    requires i + 2 < |s|
    ensures (k == 3 || k == 1) && i + k <= |s|
    ensures Unescape(s[i..]) == [b] + Unescape(s[i + k..])
  {
    if s[i] == '%' && HexValue(s[i + 1]) != -1 && HexValue(s[i + 2]) != -1 {
      b := (HexValue(s[i + 1]) * 16 + HexValue(s[i + 2])) as char;
      k := 3;
    } else {
      b := s[i];
      k := 1;
    }
    UnescapeAt(s, i, b, k);
  }

  /** The copy of the last bytes at the end of query_unescape. */
  method CopyRest(tmp: array<char>, end: nat, s: string, i: nat, ghost done: string)
    requires end <= i <= |s| == tmp.Length && tmp[..end] == done
    modifies tmp
    ensures tmp[..|s| - i + end] == done + s[i..]
  {
    var e := end;
    var j := i;
    while j < |s|
      invariant i <= j <= |s| && e == end + (j - i)
      invariant tmp[..e] == done + s[i..j]
    {
      tmp[e] := s[j];
      assert s[i..j + 1] == s[i..j] + [s[j]];
      e := e + 1;
      j := j + 1;
    }
    assert s[i..j] == s[i..];
  }

  // ------------------------------------------------------- query strings

  type QueryDict = map<string, string>

  /** std::unordered_map::insert: an existing key keeps its value. */
  function InsertFirst(d: QueryDict, k: string, v: string): (r: QueryDict)
    ensures k in d ==> r == d
    ensures k !in d ==> r == d[k := v]
  {
    if k in d then d else d[k := v]
  }

  /** The first position at or after i that holds c, or the length of t:
      the scan that steps past every character other than c, up to the end. */
  function Scan(t: string, c: char, i: nat): (r: nat)
    requires i <= |t|
    ensures i <= r <= |t|
    decreases |t| - i
  {
    if i == |t| || t[i] == c then i else Scan(t, c, i + 1)
  }

  /** The scan stops at the first c at or after i, or at the end. */
  lemma {:induction false} ScanAt(t: string, c: char, i: nat, p: nat)
    requires i <= p <= |t| && (p == |t| || t[p] == c) && Absent(t, c, i, p)
    ensures Scan(t, c, i) == p
    decreases p - i
  {
    if i < p {
      ScanAt(t, c, i + 1, p);
    }
  }

  /** The end of the first segment: its '&', or the end of the text. */
  function SegmentEnd(t: string): (r: nat)
    ensures r <= |t|
  {
    Scan(t, '&', 0)
  }

  /** The first '=' of a segment, or its length. */
  function EqualsPos(seg: string): (r: nat)
    ensures r <= |seg|
  {
    Scan(seg, '=', 0)
  }

  /** The pairs of a query string after its '?', added to acc.  Segments
      end at '&'; each must be key=value with a non-empty key and a
      non-empty value (the value may hold further '='s). */
  function ParsePairs(t: string, acc: QueryDict): (r: Result<QueryDict>)
    decreases |t|
  {
    if t == [] then Ok(acc)
    else
      var sep := SegmentEnd(t);
      var eq := EqualsPos(t[..sep]);
      if !(0 < eq) || !(eq + 1 < sep) then Err(RfcException)
      else
        var acc' := InsertFirst(acc, Unescape(t[..eq]), Unescape(t[eq + 1..sep]));
        if sep == |t| then Ok(acc') else ParsePairs(t[sep + 1..], acc')
  }

  /** QueryDict(query): everything up to the first '?' is ignored; no '?'
      gives the empty dictionary. */
  function ParseQuery(query: string): (r: Result<QueryDict>)
  {
    match Find(query, '?', 0)
    case None => Ok(map[])
    case Some(off) => ParsePairs(query[off + 1..], map[])
  }

  /** The dictionary constructor. */
  method NewQueryDict(query: string) returns (r: Result<QueryDict>)
    ensures r == ParseQuery(query)
  {
    var off := Find(query, '?', 0);
    if off.None? {
      return Ok(map[]);
    }
    r := ParsePairsLoop(query[off.value + 1..]);
  }

  /** The scan from b that steps past every character other than c, up to limit. */
  method ScanTo(t: string, b: nat, limit: nat, c: char) returns (p: nat)
    requires b <= limit <= |t|
    ensures b <= p <= limit && (p == limit || t[p] == c) && Absent(t, c, b, p)
  {
    p := b;
    while p < limit && t[p] != c
      invariant b <= p <= limit && Absent(t, c, b, p)
    {
      p := p + 1;
    }
  }

  /** The pair loop of the constructor over the text after the '?'. */
  method ParsePairsLoop(t: string) returns (r: Result<QueryDict>)
    ensures r == ParsePairs(t, map[])
  {
    var d: QueryDict := map[];
    var b := 0;
    assert t[0..] == t;
    while b < |t|
      invariant 0 <= b <= |t|
      invariant ParsePairs(t[b..], d) == ParsePairs(t, map[])
      decreases |t| - b
    {
      var last, next, d' := ReadPair(t, b, d);
      if last.Some? {
        return last.value;
      }
      b, d := next, d';
    }
    assert t[b..] == [];
    return Ok(d);
  }

  /** One round of the pair loop: the segment at b either ends the parse
      (with an error, or with its pair added when it is the last one), or
      adds its pair to d and lets the parse go on after its '&'. */
  method ReadPair(t: string, b: nat, d: QueryDict) returns (last: Option<Result<QueryDict>>, next: nat, d': QueryDict)
    requires b < |t|
    ensures last.Some? ==> ParsePairs(t[b..], d) == last.value
    ensures last.None? ==> b < next <= |t| && ParsePairs(t[b..], d) == ParsePairs(t[next..], d')
  {
    var sep, eq := ReadSegment(t, b);
    next, d' := b, d;
    if !(b < eq) || !(eq + 1 < sep) {
      PairsBad(t, b, sep, eq, d);
      last := Some(Err(RfcException));
    } else {
      var key := QueryUnescape(t[b..eq]);
      var value := QueryUnescape(t[eq + 1..sep]);
      if sep == |t| {
        last := Some(Ok(InsertFirst(d, key, value)));
        PairsLast(t, b, sep, eq, d, key, value, last.value);
      } else {
        last, next, d' := None, sep + 1, InsertFirst(d, key, value);
        PairsMore(t, b, sep, eq, d, key, value, t[next..], d');
      }
    }
  }

  /** The scans for the end of the segment at b and for its first '='. */
  method ReadSegment(t: string, b: nat) returns (sep: nat, eq: nat)
    requires b < |t|
    ensures b <= eq <= sep <= |t|
    ensures SegmentEnd(t[b..]) == sep - b
    ensures EqualsPos(t[b..][..sep - b]) == eq - b
    ensures t[b..][..eq - b] == t[b..eq]
    ensures eq < sep ==> t[b..][eq - b + 1..sep - b] == t[eq + 1..sep]
    ensures sep < |t| ==> t[b..][sep - b + 1..] == t[sep + 1..]
  {
    sep := ScanTo(t, b, |t|, '&');
    eq := ScanTo(t, b, sep, '=');
    PairsScan(t, b, sep, eq);
  }

  lemma SegmentEndAt(t: string, b: nat, sep: nat)
    requires b <= sep <= |t|
    requires sep == |t| || t[sep] == '&'
    requires Absent(t, '&', b, sep)
    ensures SegmentEnd(t[b..]) == sep - b
  {
    var u := t[b..];
    assert forall j :: 0 <= j < sep - b ==> u[j] == t[b + j];
    ScanAt(u, '&', 0, sep - b);
  }

  lemma EqualsPosAt(t: string, b: nat, sep: nat, eq: nat)
    requires b <= eq <= sep <= |t|
    requires eq == sep || t[eq] == '='
    requires Absent(t, '=', b, eq)
    ensures EqualsPos(t[b..][..sep - b]) == eq - b
  {
    var seg := t[b..][..sep - b];
    assert forall j :: 0 <= j < sep - b ==> seg[j] == t[b + j];
    ScanAt(seg, '=', 0, eq - b);
  }

  /** The scans of one segment at position b of t find what SegmentEnd and
      EqualsPos find in t[b..]. */
  lemma PairsScan(t: string, b: nat, sep: nat, eq: nat)
    requires b <= eq <= sep <= |t| && b < |t|
    requires sep == |t| || t[sep] == '&'
    requires Absent(t, '&', b, sep)
    requires eq == sep || t[eq] == '='
    requires Absent(t, '=', b, eq)
    ensures SegmentEnd(t[b..]) == sep - b
    ensures EqualsPos(t[b..][..sep - b]) == eq - b
    ensures t[b..][..eq - b] == t[b..eq]
    ensures eq < sep ==> t[b..][eq - b + 1..sep - b] == t[eq + 1..sep]
    ensures sep < |t| ==> t[b..][sep - b + 1..] == t[sep + 1..]
  {
    SegmentEndAt(t, b, sep);
    EqualsPosAt(t, b, sep, eq);
  }

  /** A segment without a key or without a value fails the parse. */
  lemma PairsBad(t: string, b: nat, sep: nat, eq: nat, d: QueryDict)
    requires b <= eq <= sep <= |t| && b < |t|
    requires SegmentEnd(t[b..]) == sep - b && EqualsPos(t[b..][..sep - b]) == eq - b
    requires !(b < eq) || !(eq + 1 < sep)
    ensures ParsePairs(t[b..], d) == Err(RfcException)
  {
    BadAt(t[b..], sep - b, eq - b, d);
  }

  /** The last segment ends the parse with its pair added. */
  lemma PairsLast(t: string, b: nat, sep: nat, eq: nat, d: QueryDict, key: string, value: string, r: Result<QueryDict>)
    requires b < eq && eq + 1 < sep && sep == |t|
    requires SegmentEnd(t[b..]) == sep - b && EqualsPos(t[b..][..sep - b]) == eq - b
    requires t[b..][..eq - b] == t[b..eq] && t[b..][eq - b + 1..sep - b] == t[eq + 1..sep]
    requires key == Unescape(t[b..eq]) && value == Unescape(t[eq + 1..sep])
    requires r == Ok(InsertFirst(d, key, value))
    ensures ParsePairs(t[b..], d) == r
  {
    LastAt(t[b..], sep - b, eq - b, d, key, value);
  }

  /** Any other segment adds its pair and goes on after its '&'. */
  lemma PairsMore(t: string, b: nat, sep: nat, eq: nat, d: QueryDict, key: string, value: string, tail: string, d': QueryDict)
    requires b < eq && eq + 1 < sep && sep < |t|
    requires SegmentEnd(t[b..]) == sep - b && EqualsPos(t[b..][..sep - b]) == eq - b
    requires t[b..][..eq - b] == t[b..eq] && t[b..][eq - b + 1..sep - b] == t[eq + 1..sep]
    requires t[b..][sep - b + 1..] == t[sep + 1..]
    requires key == Unescape(t[b..eq]) && value == Unescape(t[eq + 1..sep])
    requires tail == t[sep + 1..] && d' == InsertFirst(d, key, value)
    ensures ParsePairs(t[b..], d) == ParsePairs(tail, d')
  {
    MoreAt(t[b..], sep - b, eq - b, d, key, value, tail, d');
  }

  /** The three outcomes of the first segment of u, ending at sep with its
      first '=' at eq. */
  lemma BadAt(u: string, sep: nat, eq: nat, d: QueryDict)
    requires u != [] && SegmentEnd(u) == sep && EqualsPos(u[..sep]) == eq
    requires !(0 < eq) || !(eq + 1 < sep)
    ensures ParsePairs(u, d) == Err(RfcException)
  {
  }

  lemma LastAt(u: string, sep: nat, eq: nat, d: QueryDict, k: string, v: string)
    requires u != [] && SegmentEnd(u) == sep && EqualsPos(u[..sep]) == eq
    requires 0 < eq && eq + 1 < sep && sep == |u|
    requires k == Unescape(u[..eq]) && v == Unescape(u[eq + 1..sep])
    ensures ParsePairs(u, d) == Ok(InsertFirst(d, k, v))
  {
  }

  lemma MoreAt(u: string, sep: nat, eq: nat, d: QueryDict, k: string, v: string, rest: string, d': QueryDict)
    requires u != [] && SegmentEnd(u) == sep && EqualsPos(u[..sep]) == eq
    requires 0 < eq && eq + 1 < sep && sep < |u|
    requires k == Unescape(u[..eq]) && v == Unescape(u[eq + 1..sep])
    requires rest == u[sep + 1..] && d' == InsertFirst(d, k, v)
    ensures ParsePairs(u, d) == ParsePairs(rest, d')
  {
    MoreRaw(u, sep, eq, d);
  }

  lemma MoreRaw(u: string, sep: nat, eq: nat, d: QueryDict)
    requires u != [] && SegmentEnd(u) == sep && EqualsPos(u[..sep]) == eq
    requires 0 < eq && eq + 1 < sep && sep < |u|
    ensures ParsePairs(u, d) == ParsePairs(u[sep + 1..], InsertFirst(d, Unescape(u[..eq]), Unescape(u[eq + 1..sep])))
  {
  }

  /** Parsing fails only with the rfc exception, and a key already present
      keeps its first value. */
  lemma {:induction false} ParsePairsKeeps(t: string, acc: QueryDict)
    ensures ParsePairs(t, acc).Err? ==> ParsePairs(t, acc).error == RfcException
    ensures ParsePairs(t, acc).Ok? ==> acc.Keys <= ParsePairs(t, acc).value.Keys
    ensures ParsePairs(t, acc).Ok? ==> forall k :: k in acc ==> ParsePairs(t, acc).value[k] == acc[k]
    decreases |t|
  {
    if t != [] {
      var sep := SegmentEnd(t);
      var eq := EqualsPos(t[..sep]);
      if !(0 < eq) || !(eq + 1 < sep) {
        BadAt(t, sep, eq, acc);
      } else {
        var k := Unescape(t[..eq]);
        var v := Unescape(t[eq + 1..sep]);
        var a := InsertFirst(acc, k, v);
        if sep == |t| {
          LastAt(t, sep, eq, acc, k, v);
        } else {
          MoreAt(t, sep, eq, acc, k, v, t[sep + 1..], a);
          ParsePairsKeeps(t[sep + 1..], a);
        }
      }
    }
  }

  /** A query is parsed from the character after its first '?'. */
  lemma QueryAfterMark(t: string)
    ensures ParseQuery("?" + t) == ParsePairs(t, map[])
  {
    FindFirst("?" + t, '?', 0, 0);
    assert ("?" + t)[1..] == t;
  }

  /** A duplicated key keeps the value of its first occurrence. */
  lemma FirstValueKept(k: string, v: string, w: string)
    requires k != [] && v != [] && w != [] && IsBytes(k) && IsBytes(v) && IsBytes(w)
    ensures ParseQuery("?" + EncodePairText(k, v) + "&" + EncodePairText(k, w)) == Ok(map[k := v])
  {
    var p2 := EncodePairText(k, w);
    var rest := "&" + p2;
    var t := EncodePairText(k, v) + rest;
    assert "?" + EncodePairText(k, v) + "&" + p2 == "?" + t;
    QueryAfterMark(t);
    NextPair(k, v, rest, map[]);
    assert rest[1..] == p2;
    LastPair(k, w, map[k := v]);
  }

  /** get<std::string>: the stored value, or the default. */
  function Get(d: QueryDict, key: string, def: string): (r: string)
    ensures key in d ==> r == d[key]
    ensures key !in d ==> r == def
  {
    if key in d then d[key] else def
  }

  /** get<int>: the stored value cast with boost::lexical_cast. */
  function GetInt(d: QueryDict, key: string, def: int): (r: Result<int>)
    ensures key !in d ==> r == Ok(def)
    ensures key in d ==> r == ParseInt(d[key])
  {
    if key in d then ParseInt(d[key]) else Ok(def)
  }

  lemma GetIntStored(d: QueryDict, key: string, n: int, def: int)
    requires InInt32(n)
    ensures GetInt(d[key := IntToDecimal(n)], key, def) == Ok(n)
  {
    ParseIntRoundTrip(n);
  }

  predicate ByteDict(d: QueryDict) {
    forall k :: k in d ==> IsBytes(k) && IsBytes(d[k])
  }

  /** key=value with both halves escaped. */
  function EncodePair(d: QueryDict, k: string): (r: string)
    requires ByteDict(d) && k in d
  {
    EncodePairText(k, d[k])
  }

  /** encode: the pairs in the iteration order `order` of the hash map, an
      '&' before each but the first, and before the first too when amps. */
  function EncodeFrom(d: QueryDict, order: seq<string>, first: bool): (r: string)
    requires ByteDict(d) && forall i :: 0 <= i < |order| ==> order[i] in d
  {
    if order == [] then []
    else (if first then [] else "&") + EncodePair(d, order[0]) + EncodeFrom(d, order[1..], false)
  }

  function Encode(d: QueryDict, order: seq<string>, amps: bool): (r: string)
    requires ByteDict(d) && forall i :: 0 <= i < |order| ==> order[i] in d
  {
    EncodeFrom(d, order, !amps)
  }

  lemma EncodeFromStep(d: QueryDict, order: seq<string>, i: nat, first: bool)
    requires ByteDict(d) && forall j :: 0 <= j < |order| ==> order[j] in d
    requires i < |order|
    ensures EncodeFrom(d, order[i..], first)
      == ((if first then [] else "&") + EncodePair(d, order[i])) + EncodeFrom(d, order[i + 1..], false)
  {
    assert order[i..][0] == order[i] && order[i..][1..] == order[i + 1..];
  }

  /** Writing the piece for order[i] onto r moves the encoding on by one key. */
  lemma EncodeAppend(d: QueryDict, order: seq<string>, i: nat, first: bool, r: string, piece: string)
    requires ByteDict(d) && forall j :: 0 <= j < |order| ==> order[j] in d
    requires i < |order| && piece == (if first then [] else "&") + EncodePair(d, order[i])
    ensures r + EncodeFrom(d, order[i..], first) == (r + piece) + EncodeFrom(d, order[i + 1..], false)
  {
    EncodeFromStep(d, order, i, first);
  }

  /** The ostringstream loop of encode. */
  method EncodeDict(d: QueryDict, order: seq<string>, amps: bool) returns (r: string)
    requires ByteDict(d) && forall i :: 0 <= i < |order| ==> order[i] in d
    ensures r == Encode(d, order, amps)
  {
    var first := !amps;
    r := [];
    var i := 0;
    while i < |order|
      invariant 0 <= i <= |order|
      invariant first == (!amps && i == 0)
      invariant r + EncodeFrom(d, order[i..], first) == Encode(d, order, amps)
    {
      var sepText: string := if first then [] else "&";
      var k := QueryEscape(order[i]);
      var v := QueryEscape(d[order[i]]);
      var piece := sepText + (k + "=" + v);
      EncodeAppend(d, order, i, first, r, piece);
      first := false;
      r := r + piece;
      i := i + 1;
    }
  }

  /** A non-empty byte string escapes to a non-empty text without '&' or '='. */
  lemma EscapeSeparators(s: string)
    requires IsBytes(s)
    ensures |Escape(s)| >= |s|
    ensures Absent(Escape(s), '&', 0, |Escape(s)|) && Absent(Escape(s), '=', 0, |Escape(s)|)
  {
    EscapeShape(s);
  }

  /** Parsing what encode wrote, after a '?', gives back the dictionary,
      provided keys and values are non-empty (the parser refuses empty
      ones) and every key is written once. */
  lemma ParseEncode(d: QueryDict, order: seq<string>)
    requires ByteDict(d)
    requires forall k :: k in d ==> k != [] && d[k] != []
    requires forall i, j :: 0 <= i < j < |order| ==> order[i] != order[j]
    requires forall k :: k in d <==> k in order
    ensures ParseQuery("?" + Encode(d, order, false)) == Ok(d)
  {
    QueryAfterMark(Encode(d, order, false));
    if order == [] {
      assert d == map[];
    } else {
      ParseEncodeFrom(d, order, map[]);
      assert map[] + Restrict(d, order) == d;
    }
  }

  function EncodePairText(k: string, v: string): (r: string)
    requires IsBytes(k) && IsBytes(v)
  {
    Escape(k) + "=" + Escape(v)
  }

  lemma AbsentPrefix(a: string, b: string, c: char, n: nat)
    requires n <= |a| && Absent(a, c, 0, n)
    ensures Absent(a + b, c, 0, n)
  {
    assert forall i :: 0 <= i < n ==> (a + b)[i] == a[i];
  }

  /** The layout of an escaped pair: the key, '=', the value, and no '&'. */
  lemma PairTextShape(k: string, v: string)
    requires k != [] && v != [] && IsBytes(k) && IsBytes(v)
    ensures var t := EncodePairText(k, v); var n := |Escape(k)|;
      0 < n && n + 1 < |t| && t[n] == '=' && Absent(t, '=', 0, n) && Absent(t, '&', 0, |t|) &&
      t[..n] == Escape(k) && t[n + 1..] == Escape(v)
  {
    EscapeSeparators(k);
    EscapeSeparators(v);
    JoinShape(Escape(k), Escape(v), EncodePairText(k, v));
  }

  /** key '=' value, where neither side holds a separator. */
  lemma JoinShape(ek: string, ev: string, t: string)
    requires t == ek + "=" + ev && 0 < |ek| && 0 < |ev|
    requires Absent(ek, '&', 0, |ek|) && Absent(ek, '=', 0, |ek|) && Absent(ev, '&', 0, |ev|)
    ensures var n := |ek|;
      0 < n && n + 1 < |t| && t[n] == '=' && Absent(t, '=', 0, n) && Absent(t, '&', 0, |t|) &&
      t[..n] == ek && t[n + 1..] == ev
  {
    forall i | 0 <= i < |t| ensures t[i] != '&' {
      if i < |ek| { assert t[i] == ek[i]; }
      else if i > |ek| { assert t[i] == ev[i - |ek| - 1]; }
    }
    forall i | 0 <= i < |ek| ensures t[i] != '=' {
      assert t[i] == ek[i];
    }
  }

  /** The scans over an escaped pair in front of rest (empty or starting
      with '&') find its '&' and its '=', and the halves unescape to the
      pair. */
  lemma OnePairScan(k: string, v: string, rest: string, p: string, n: nat, t: string)
    requires k != [] && v != [] && IsBytes(k) && IsBytes(v)
    requires rest == [] || rest[0] == '&'
    requires p == EncodePairText(k, v) && n == |Escape(k)| && t == p + rest
    ensures 0 < n && n + 1 < |p| && |p| <= |t|
    ensures SegmentEnd(t[0..]) == |p| - 0 && EqualsPos(t[0..][..|p| - 0]) == n - 0
    ensures t[0..][..n - 0] == t[0..n] && t[0..][n - 0 + 1..|p| - 0] == t[n + 1..|p|]
    ensures k == Unescape(t[0..n]) && v == Unescape(t[n + 1..|p|])
    ensures rest != [] ==> t[0..][|p| - 0 + 1..] == t[|p| + 1..] && rest[1..] == t[|p| + 1..]
  {
    PairTextShape(k, v);
    UnescapeEscape(k);
    UnescapeEscape(v);
    JoinScan(p, rest, n, t);
  }

  /** The scans over a segment p, with its first '=' at n, in front of rest
      (empty or starting with '&'). */
  lemma JoinScan(p: string, rest: string, n: nat, t: string)
    requires t == p + rest && 0 < n && n + 1 < |p| && p[n] == '='
    requires Absent(p, '=', 0, n) && Absent(p, '&', 0, |p|)
    requires rest == [] || rest[0] == '&'
    ensures |p| <= |t| && SegmentEnd(t[0..]) == |p| - 0 && EqualsPos(t[0..][..|p| - 0]) == n - 0
    ensures t[0..][..n - 0] == t[0..n] && t[0..][n - 0 + 1..|p| - 0] == t[n + 1..|p|]
    ensures t[0..n] == p[..n] && t[n + 1..|p|] == p[n + 1..]
    ensures rest != [] ==> t[0..][|p| - 0 + 1..] == t[|p| + 1..] && rest[1..] == t[|p| + 1..]
  {
    AbsentPrefix(p, rest, '&', |p|);
    AbsentPrefix(p, rest, '=', n);
    assert t[0..n] == p[..n];
    assert t[n + 1..|p|] == p[n + 1..];
    PairsScan(t, 0, |p|, n);
    if rest != [] {
      assert t[|p| + 1..] == rest[1..];
    }
  }

  /** The escaped pair alone is parsed back into the pair. */
  lemma LastPair(k: string, v: string, acc: QueryDict)
    requires k != [] && v != [] && IsBytes(k) && IsBytes(v)
    ensures ParsePairs(EncodePairText(k, v), acc) == Ok(InsertFirst(acc, k, v))
  {
    var p := EncodePairText(k, v);
    var n := |Escape(k)|;
    OnePairScan(k, v, [], p, n, p);
    PairsLast(p, 0, |p|, n, acc, k, v, Ok(InsertFirst(acc, k, v)));
    assert p[0..] == p;
  }

  /** An escaped pair in front of '&' and more text is parsed into the pair,
      and the parse goes on after the '&'. */
  lemma NextPair(k: string, v: string, rest: string, acc: QueryDict)
    requires k != [] && v != [] && IsBytes(k) && IsBytes(v)
    requires rest != [] && rest[0] == '&'
    ensures ParsePairs(EncodePairText(k, v) + rest, acc) == ParsePairs(rest[1..], InsertFirst(acc, k, v))
  {
    var p := EncodePairText(k, v);
    var t := p + rest;
    var n := |Escape(k)|;
    var sep, tail, d' := |p|, rest[1..], InsertFirst(acc, k, v);
    OnePairScan(k, v, rest, p, n, t);
    PairsMore(t, 0, sep, n, acc, k, v, tail, d');
    assert t[0..] == t;
  }

  lemma EncodeFromFirst(d: QueryDict, order: seq<string>)
    requires ByteDict(d) && forall j :: 0 <= j < |order| ==> order[j] in d
    requires order != []
    ensures EncodeFrom(d, order, true) == EncodePairText(order[0], d[order[0]]) + EncodeFrom(d, order[1..], false)
  {
  }

  /** Every pair but the first is preceded by '&'. */
  lemma EncodeFromAmp(d: QueryDict, order: seq<string>)
    requires ByteDict(d) && forall j :: 0 <= j < |order| ==> order[j] in d
    requires order != []
    ensures EncodeFrom(d, order, false) == "&" + EncodeFrom(d, order, true)
  {
    var p, rest := EncodePair(d, order[0]), EncodeFrom(d, order[1..], false);
    assert [] + p == p;
    assert ("&" + p) + rest == "&" + (p + rest);
  }

  /** The entries of d whose keys occur in order. */
  function Restrict(d: QueryDict, order: seq<string>): (r: QueryDict)
  {
    map k | k in d && k in order :: d[k]
  }

  lemma RestrictNil(d: QueryDict, order: seq<string>, acc: QueryDict)
    requires order == []
    ensures acc + Restrict(d, order) == acc
  {
    assert Restrict(d, order) == map[];
  }

  lemma RestrictCons(d: QueryDict, order: seq<string>, acc: QueryDict)
    requires order != [] && order[0] in d
    ensures acc + Restrict(d, order) == acc[order[0] := d[order[0]]] + Restrict(d, order[1..])
  {
    var l := acc + Restrict(d, order);
    var r := acc[order[0] := d[order[0]]] + Restrict(d, order[1..]);
    forall x ensures x in order <==> x == order[0] || x in order[1..] {
      if x in order && x != order[0] {
        var j :| 0 <= j < |order| && order[j] == x;
        assert order[1..][j - 1] == x;
      }
    }
    assert l.Keys == r.Keys;
    assert forall x :: x in l ==> l[x] == r[x];
  }

  /** The first of several pairs is parsed, the rest follows the '&'. */
  lemma ParseEncodeStep(d: QueryDict, order: seq<string>, acc: QueryDict)
    requires ByteDict(d) && |order| >= 2
    requires forall k :: k in d ==> k != [] && d[k] != []
    requires forall i :: 0 <= i < |order| ==> order[i] in d
    ensures ParsePairs(EncodeFrom(d, order, true), acc)
      == ParsePairs(EncodeFrom(d, order[1..], true), InsertFirst(acc, order[0], d[order[0]]))
  {
    var k := order[0];
    var next := EncodeFrom(d, order[1..], true);
    EncodeFromFirst(d, order);
    EncodeFromAmp(d, order[1..]);
    PairThenMore(EncodeFrom(d, order, true), k, d[k], next, acc);
  }

  lemma PairThenMore(t: string, k: string, v: string, next: string, acc: QueryDict)
    requires k != [] && v != [] && IsBytes(k) && IsBytes(v)
    requires t == EncodePairText(k, v) + ("&" + next)
    ensures ParsePairs(t, acc) == ParsePairs(next, InsertFirst(acc, k, v))
  {
    var rest := "&" + next;
    NextPair(k, v, rest, acc);
    assert rest[1..] == next;
  }

  lemma {:induction false} ParseEncodeFrom(d: QueryDict, order: seq<string>, acc: QueryDict)
    requires ByteDict(d) && order != []
    requires forall k :: k in d ==> k != [] && d[k] != []
    requires forall i, j :: 0 <= i < j < |order| ==> order[i] != order[j]
    requires forall i :: 0 <= i < |order| ==> order[i] in d && order[i] !in acc
    ensures ParsePairs(EncodeFrom(d, order, true), acc) == Ok(acc + Restrict(d, order))
    decreases |order|
  {
    var k := order[0];
    var acc' := acc[k := d[k]];
    RestrictCons(d, order, acc);
    if order[1..] == [] {
      EncodeFromFirst(d, order);
      assert EncodeFrom(d, order, true) == EncodePairText(k, d[k]);
      LastPair(k, d[k], acc);
      RestrictNil(d, order[1..], acc');
    } else {
      ParseEncodeStep(d, order, acc);
      forall i | 0 <= i < |order[1..]| ensures order[1..][i] in d && order[1..][i] !in acc' {
        assert order[1..][i] == order[i + 1];
      }
      forall i, j | 0 <= i < j < |order[1..]| ensures order[1..][i] != order[1..][j] {
        assert order[1..][i] == order[i + 1] && order[1..][j] == order[j + 1];
      }
      ParseEncodeFrom(d, order[1..], acc');
    }
  }

  // ----------------------------------------------------------- multipart

  /** A part of a multipart body: the name of its Content-Disposition header
      and its content.  (The header map a Part inherits is never filled.) */
  datatype Part = Part(name: string, body: string)

  const Crlf: string := "\r\n"
  const Disposition: string := "Content-Disposition:"
  const NameAttr: string := "name=\""

  /** spaceCRLF: the position just after the next CRLF at or after off. */
  function SpaceCrlf(s: string, off: nat): (r: Result<nat>)
    ensures r.Ok? ==> off + 2 <= r.value <= |s|
    ensures r.Err? ==> r == Err(RfcException)
  {
    match FindStr(s, Crlf, off)
    case None => Err(RfcException)
    case Some(p) => Ok(p + 2)
  }

  /** The boundary parameter of a multipart content type, with "--" in
      front: the text after the first "boundary=", optionally in double
      quotes, with trailing white space removed. */
  function BoundaryOf(ct: string): (r: Result<string>)
    ensures r.Ok? ==> |r.value| > 2 && r.value[..2] == "--"
    ensures r.Ok? ==> FindStr(ct, "multipart/", 0) == Some(0) && FindStr(ct, "boundary=", 0).Some?
  {
    if FindStr(ct, "multipart/", 0) != Some(0) then Err(RfcException)
    else match FindStr(ct, "boundary=", 0)
      case None => Err(RfcException)
      case Some(p) =>
        var off := p + 9;
        if off >= |ct| then Err(RfcException)
        else
          var quoted := ct[off] == '"';
          var b := TrimRight(ct[if quoted then off + 1 else off..]);
          if quoted && (b == [] || b[|b| - 1] != '"') then Err(RfcException)
          else
            var b' := if quoted then b[..|b| - 1] else b;
            if b' == [] then Err(RfcException) else Ok("--" + b')
  }

  /** The name a Content-Disposition header line gives its part; any other
      line leaves the name as it was. */
  function HeaderName(line: string, name: string): (r: string)
  {
    if !IsPrefix(Disposition, line) then name
    else match FindStr(line, NameAttr, 0)
      case None => name
      case Some(p) =>
        if p + 6 >= |line| then name
        else
          var q := Scan(line, '"', p + 6);
          if q == |line| then name else line[p + 6..q]
  }

  /** `find(pat) == 0` holds exactly when pat is a prefix. */
  lemma FindAtStart(s: string, pat: string)
    ensures FindStr(s, pat, 0) == Some(0) <==> IsPrefix(pat, s)
  {
    if IsPrefix(pat, s) {
      assert s[0..|pat|] == pat;
    }
  }

  /** The header lines of a part from off to the first empty line: the
      position after that line and the name found. */
  function Headers(body: string, off: nat, name: string): (r: Result<(nat, string)>)
    ensures r.Ok? ==> off + 2 <= r.value.0 <= |body|
    decreases |body| - off
  {
    match FindStr(body, Crlf, off)
    case None => Err(RfcException)
    case Some(e) =>
      var line := body[off..e];
      if line == [] then Ok((e + 2, name))
      else Headers(body, e + 2, HeaderName(line, name))
  }

  /** The content of a part runs from the end of its headers to its
      delimiter; `substr(off, end - off)` with off > end wraps the length
      and takes the rest of the body. */
  function PartBody(body: string, off: nat, end: nat): (r: string)
    requires off <= |body| && end <= |body|
    ensures off <= end ==> r == body[off..end]
    ensures end < off ==> r == body[off..]
  {
    if off <= end then body[off..end] else body[off..]
  }

  /** One round of the part loop: the part read at off and the position
      the loop goes on from, None after the closing "--". */
  datatype Round = Round(part: Part, next: Option<nat>)

  /** A round of the part loop of the MultiPart constructor at off: the
      delimiter search, then the header loop, then the two bytes after the
      delimiter. */
  function PartRound(body: string, delim: string, off: nat): (r: Result<Round>)
    ensures r.Ok? && r.value.next.Some? ==> r.value.next.value > off
  {
    RoundOf(body, delim, off, FindStr(body, delim, off), Headers(body, off, []))
  }

  /** A round of the part loop given the result of the delimiter search
      and of the header loop (which the loop only looks at once the
      delimiter is found after off). */
  function RoundOf(body: string, delim: string, off: nat, found: Option<nat>, hdr: Result<(nat, string)>): (r: Result<Round>)
    requires found.Some? ==> found.value + |delim| <= |body|
    requires hdr.Ok? ==> hdr.value.0 <= |body|
    ensures r.Ok? && r.value.next.Some? ==> r.value.next.value > off
  {
    match found
    case None => Err(RfcException)
    case Some(end) =>
      if end <= off then Err(RfcException)
      else match hdr
        case Err(e) => Err(e)
        case Ok(h) =>
          var part := Part(h.1, PartBody(body, h.0, end));
          var next := end + |delim|;
          if next + 2 > |body| then Err(RfcException)
          else if body[next] == '-' && body[next + 1] == '-' then Ok(Round(part, None))
          else match SpaceCrlf(body, next)
            case Err(e) => Err(e)
            case Ok(off2) => Ok(Round(part, Some(off2)))
  }

  /** The part loop of the MultiPart constructor from position off. */
  function PartsFrom(body: string, delim: string, off: nat, acc: seq<Part>): (r: Result<seq<Part>>)
    decreases |body| - off
  {
    if off >= |body| then Ok(acc)
    else match PartRound(body, delim, off)
      case Err(e) => Err(e)
      case Ok(rd) =>
        if rd.next.None? then Ok(acc + [rd.part])
        else PartsFrom(body, delim, rd.next.value, acc + [rd.part])
  }

  /** MultiPart(content_type, body). */
  function ParseMultiPart(ct: string, body: string): (r: Result<seq<Part>>)
  {
    match BoundaryOf(ct)
    case Err(e) => Err(e)
    case Ok(b) =>
      if FindStr(body, b, 0) != Some(0) then Err(RfcException)
      else match SpaceCrlf(body, 0)
        case Err(e) => Err(e)
        case Ok(off) => PartsFrom(body, Crlf + b, off, [])
  }

  /** The boundary code of the constructor, with its loop popping trailing
      white space. */
  method ReadBoundary(ct: string) returns (r: Result<string>)
    ensures r == BoundaryOf(ct)
  {
    if FindStr(ct, "multipart/", 0) != Some(0) {
      return Err(RfcException);
    }
    var found := FindStr(ct, "boundary=", 0);
    if found.None? {
      return Err(RfcException);
    }
    var off := found.value + 9;
    if off >= |ct| {
      return Err(RfcException);
    }
    var quoted := false;
    if ct[off] == '"' {
      quoted := true;
      off := off + 1;
    }
    var boundary := ct[off..];
    while boundary != [] && IsSpace(boundary[|boundary| - 1])
      invariant TrimRight(boundary) == TrimRight(ct[off..])
    {
      boundary := boundary[..|boundary| - 1];
    }
    if quoted {
      if boundary == [] || boundary[|boundary| - 1] != '"' {
        return Err(RfcException);
      }
      boundary := boundary[..|boundary| - 1];
    }
    if boundary == [] {
      return Err(RfcException);
    }
    return Ok("--" + boundary);
  }

  /** Without a CR LF at or after pos the header loop throws. */
  lemma HeadersNone(body: string, pos: nat, name: string)
    requires FindStr(body, Crlf, pos).None?
    ensures Headers(body, pos, name) == Err(RfcException)
  {
  }

  /** An empty line at pos ends the header loop after it. */
  lemma HeadersEnd(body: string, pos: nat, name: string, e: nat)
    requires FindStr(body, Crlf, pos) == Some(e) && e == pos
    ensures Headers(body, pos, name) == Ok((e + 2, name))
  {
    assert body[pos..e] == [];
  }

  /** A non-empty line at pos is read for a name, and the loop goes on
      after it. */
  lemma HeadersLine(body: string, pos: nat, name: string, e: nat, line: string, name': string)
    requires FindStr(body, Crlf, pos) == Some(e) && pos < e
    requires body[pos..e] == line && HeaderName(line, name) == name'
    ensures Headers(body, pos, name) == Headers(body, e + 2, name')
  {
    HeadersLineRaw(body, pos, name, e);
  }

  lemma HeadersLineRaw(body: string, pos: nat, name: string, e: nat)
    requires FindStr(body, Crlf, pos) == Some(e) && pos < e
    ensures Headers(body, pos, name) == Headers(body, e + 2, HeaderName(body[pos..e], name))
  {
    assert |body[pos..e]| == e - pos;
  }

  /** The header loop of the constructor. */
  method ReadHeaders(body: string, off: nat) returns (r: Result<(nat, string)>)
    ensures r == Headers(body, off, [])
  {
    var name := [];
    var pos := off;
    while true
      invariant pos <= |body| || pos == off
      invariant Headers(body, pos, name) == Headers(body, off, [])
      decreases |body| - pos
    {
      var last, next, name' := ReadHeaderLine(body, pos, name);
      if last.Some? {
        return last.value;
      }
      pos, name := next, name';
    }
  }

  /** One round of the header loop: getline at pos, then either the end
      of the headers (or the throw when no line ends), or the name taken
      from the line and the position after it. */
  method ReadHeaderLine(body: string, pos: nat, name: string)
    returns (last: Option<Result<(nat, string)>>, next: nat, name': string)
    ensures last.Some? ==> Headers(body, pos, name) == last.value
    ensures last.None? ==> pos < next <= |body| && Headers(body, pos, name) == Headers(body, next, name')
  {
    next, name' := pos, name;
    var e := FindStr(body, Crlf, pos);
    if e.None? {
      HeadersNone(body, pos, name);
      last := Some(Err(RfcException));
    } else {
      var line := body[pos..e.value];
      if line == [] {
        HeadersEnd(body, pos, name, e.value);
        last := Some(Ok((e.value + 2, name)));
      } else {
        last, next, name' := None, e.value + 2, HeaderName(line, name);
        HeadersLine(body, pos, name, e.value, line, name');
      }
    }
  }

  /** One round of the part loop, with the header loop of ReadHeaders. */
  method ReadRound(body: string, delim: string, off: nat) returns (r: Result<Round>)
    ensures r == PartRound(body, delim, off)
  {
    var end := FindStr(body, delim, off);
    if end.None? || end.value <= off {
      return Err(RfcException);
    }
    var h := ReadHeaders(body, off);
    if h.Err? {
      return Err(h.error);
    }
    var part := Part(h.value.1, PartBody(body, h.value.0, end.value));
    var next := end.value + |delim|;
    if next + 2 > |body| {
      return Err(RfcException);
    }
    if body[next] == '-' && body[next + 1] == '-' {
      return Ok(Round(part, None));
    }
    var sp := SpaceCrlf(body, next);
    if sp.Err? {
      return Err(sp.error);
    }
    return Ok(Round(part, Some(sp.value)));
  }

  /** A round is what RoundOf makes of the delimiter search and the header
      loop. */
  lemma RoundIs(s: string, d: string, q: nat, e: nat, h: (nat, string), rd: Result<Round>)
    requires FindStr(s, d, q) == Some(e) && Headers(s, q, []) == Ok(h)
    requires RoundOf(s, d, q, Some(e), Ok(h)) == rd
    ensures PartRound(s, d, q) == rd
  {
  }

  /** "--" after the delimiter ends the part loop with this round's part. */
  lemma RoundLastOf(s: string, d: string, q: nat, e: nat, h: (nat, string), n: nat)
    requires q < e && n == e + |d| && n + 2 <= |s| && h.0 <= |s|
    requires s[n] == '-' && s[n + 1] == '-'
    ensures RoundOf(s, d, q, Some(e), Ok(h)) == Ok(Round(Part(h.1, PartBody(s, h.0, e)), None))
  {
  }

  /** A CR LF after the delimiter goes on after it. */
  lemma RoundNextOf(s: string, d: string, q: nat, e: nat, h: (nat, string), n: nat)
    requires q < e && n == e + |d| && n + 2 <= |s| && h.0 <= |s| && s[n] == '\r'
    requires SpaceCrlf(s, n) == Ok(n + 2)
    ensures RoundOf(s, d, q, Some(e), Ok(h)) == Ok(Round(Part(h.1, PartBody(s, h.0, e)), Some(n + 2)))
  {
  }

  /** The part loop stops after a last round... */
  lemma FromLast(body: string, delim: string, off: nat, acc: seq<Part>, p: Part)
    requires off < |body| && PartRound(body, delim, off) == Ok(Round(p, None))
    ensures PartsFrom(body, delim, off, acc) == Ok(acc + [p])
  {
  }

  /** ... and goes on after any other round. */
  lemma FromNext(body: string, delim: string, off: nat, acc: seq<Part>, p: Part, off2: nat)
    requires off < |body| && PartRound(body, delim, off) == Ok(Round(p, Some(off2)))
    ensures PartsFrom(body, delim, off, acc) == PartsFrom(body, delim, off2, acc + [p])
  {
  }

  /** The MultiPart constructor. */
  method NewMultiPart(ct: string, body: string) returns (r: Result<seq<Part>>)
    ensures r == ParseMultiPart(ct, body)
  {
    var boundary := ReadBoundary(ct);
    if boundary.Err? {
      return Err(boundary.error);
    }
    if FindStr(body, boundary.value, 0) != Some(0) {
      return Err(RfcException);
    }
    var start := SpaceCrlf(body, 0);
    if start.Err? {
      return Err(start.error);
    }
    r := PartsLoop(body, Crlf + boundary.value, start.value);
  }

  /** The part loop of the constructor. */
  method PartsLoop(body: string, delim: string, start: nat) returns (r: Result<seq<Part>>)
    ensures r == PartsFrom(body, delim, start, [])
  {
    var off := start;
    var parts: seq<Part> := [];
    while off < |body|
      invariant PartsFrom(body, delim, off, parts) == PartsFrom(body, delim, start, [])
      decreases |body| - off
    {
      var rd := ReadRound(body, delim, off);
      if rd.Err? {
        return Err(rd.error);
      }
      parts := parts + [rd.value.part];
      if rd.value.next.None? {
        return Ok(parts);
      }
      off := rd.value.next.value;
    }
    return Ok(parts);
  }

  // ------------------------------------- forms the multipart parser reads

  predicate NoCr(s: string) {
    '\r' !in s
  }

  /** pat does not occur at i when one of its characters differs there. */
  lemma NotAt(s: string, pat: string, i: nat, j: nat)
    requires j < |pat| && i + j < |s| && s[i + j] != pat[j]
    ensures !At(s, pat, i)
  {
    if i + |pat| <= |s| {
      assert s[i..i + |pat|][j] == s[i + j];
    }
  }

  lemma AtSlice(s: string, pat: string, i: nat)
    requires i + |pat| <= |s| && s[i..i + |pat|] == pat
    ensures At(s, pat, i)
  {
  }

  const FormData: string := " form-data; "

  /** `Content-Disposition: form-data; name="`. */
  const DispositionPrefix: string := Disposition + FormData + NameAttr

  /** The header line a form writes for a part named n. */
  function DispositionLine(n: string): (r: string)
  {
    DispositionPrefix + n + "\""
  }

  lemma DispositionPrefixShape()
    ensures |DispositionPrefix| == 38
    ensures DispositionPrefix[..20] == Disposition && DispositionPrefix[32..] == NameAttr
    ensures forall i :: 0 <= i < 32 && DispositionPrefix[i] == 'n' ==> DispositionPrefix[i + 1] != 'a'
  {
  }

  /** The Content-Disposition line of a form gives its part the name n. */
  lemma DispositionName(n: string, prev: string)
    requires Absent(n, '"', 0, |n|)
    ensures HeaderName(DispositionLine(n), prev) == n
  {
    var line := DispositionLine(n);
    DispositionPrefixShape();
    assert line[..38] == DispositionPrefix;
    assert line[..20] == Disposition;
    assert line[32..38] == NameAttr;
    forall i | 0 <= i < 32 ensures !At(line, NameAttr, i) {
      assert line[i] == DispositionPrefix[i];
      if line[i] == 'n' {
        assert line[i + 1] == DispositionPrefix[i + 1];
        NotAt(line, NameAttr, i, 1);
      } else {
        NotAt(line, NameAttr, i, 0);
      }
    }
    FindStrFirst(line, NameAttr, 0, 32);
    forall i | 38 <= i < 38 + |n| ensures line[i] != '"' {
      assert line[i] == n[i - 38];
    }
    ScanAt(line, '"', 38, 38 + |n|);
    assert line[38..38 + |n|] == n;
  }

  const FormPrefix: string := "multipart/form-data; boundary="

  function FormContentType(b: string): (r: string)
  {
    FormPrefix + b
  }

  /** A boundary a form can carry unquoted: non-empty, not starting with a
      quote, not ending in white space, without CR. */
  predicate FormBoundary(b: string) {
    b != [] && b[0] != '"' && !IsSpace(b[|b| - 1]) && NoCr(b)
  }

  lemma FormPrefixShape()
    ensures |FormPrefix| == 30
    ensures FormPrefix[..10] == "multipart/" && FormPrefix[21..] == "boundary="
    ensures forall i :: 0 <= i < 21 ==> FormPrefix[i] != 'b'
  {
  }

  lemma FormBoundaryOf(b: string)
    requires FormBoundary(b)
    ensures BoundaryOf(FormContentType(b)) == Ok("--" + b)
  {
    var ct := FormContentType(b);
    FormPrefixShape();
    assert ct[..30] == FormPrefix;
    assert ct[0..10] == "multipart/";
    FindStrFirst(ct, "multipart/", 0, 0);
    assert ct[21..30] == "boundary=";
    forall i | 0 <= i < 21 ensures !At(ct, "boundary=", i) {
      assert ct[i] == FormPrefix[i];
      NotAt(ct, "boundary=", i, 0);
    }
    FindStrFirst(ct, "boundary=", 0, 21);
    assert ct[30] == b[0];
    assert ct[30..] == b;
  }

  /** A part a form can carry: no CR in its name or content, no quote in
      its name, and content not starting with the boundary line. */
  predicate FormPart(b: string, p: Part) {
    NoCr(p.name) && Absent(p.name, '"', 0, |p.name|) && NoCr(p.body) && !IsPrefix("--" + b, p.body)
  }

  /** The header line, an empty line and the content of a part. */
  function PartText(p: Part): (r: string)
  {
    DispositionLine(p.name) + Crlf + Crlf + p.body
  }

  /** The delimiter the parser looks for between parts. */
  function Delimiter(b: string): (r: string)
  {
    Crlf + ("--" + b)
  }

  lemma DispositionLineNoCr(n: string)
    requires NoCr(n)
    ensures NoCr(DispositionLine(n)) && |DispositionLine(n)| == 39 + |n|
  {
    DispositionPrefixShape();
    assert NoCr(DispositionPrefix);
  }

  lemma DelimiterShape(b: string)
    requires FormBoundary(b)
    ensures var d := Delimiter(b);
      |d| == |b| + 4 && d[0] == '\r' && d[1] == '\n' && d[2..] == "--" + b &&
      (forall j :: 2 <= j < |d| ==> d[j] != '\r')
  {
    var d := Delimiter(b);
    forall j | 2 <= j < |d| ensures d[j] != '\r' {
      if j >= 4 { assert d[j] == b[j - 4]; }
    }
  }

  /** Where the text at q of s is t, s[q + j] is t[j]. */
  lemma SliceChars(s: string, q: nat, t: string)
    requires q + |t| <= |s| && s[q..q + |t|] == t
    ensures forall j :: 0 <= j < |t| ==> s[q + j] == t[j]
  {
    forall j | 0 <= j < |t| ensures s[q + j] == t[j] {
      assert s[q..q + |t|][j] == s[q + j];
    }
  }

  /** The content of a part cannot hide a delimiter behind the empty line
      of its headers. */
  lemma NoDelimiterAtBody(s: string, b: string, i: nat, body: string)
    requires FormBoundary(b) && NoCr(body) && !IsPrefix("--" + b, body)
    requires i + 2 + |body| < |s| && s[i + 2 + |body|] == '\r'
    requires s[i + 2..i + 2 + |body|] == body
    ensures !At(s, Delimiter(b), i)
  {
    var m := "--" + b;
    var d := Delimiter(b);
    DelimiterShape(b);
    SliceChars(s, i + 2, body);
    if |body| >= |m| {
      assert body[..|m|] != m;
      var j :| 0 <= j < |m| && body[..|m|][j] != m[j];
      assert d[2 + j] == m[j];
      NotAt(s, d, i, 2 + j);
    } else {
      assert d[2 + |body|] == m[|body|];
      NotAt(s, d, i, 2 + |body|);
    }
  }

  /** No pattern starting with CR occurs where s has no CR. */
  lemma NoCrNoAt(s: string, d: string, from: nat, to: nat)
    requires d != [] && d[0] == '\r' && to <= |s|
    requires forall i :: from <= i < to ==> s[i] != '\r'
    ensures forall i :: from <= i < to ==> !At(s, d, i)
  {
    forall i | from <= i < to ensures !At(s, d, i) {
      NotAt(s, d, i, 0);
    }
  }

  /** The layout of a part and its delimiter at position q of s:
      a header line of l characters without CR, an empty line, the content
      and the delimiter. */
  predicate PartLayout(s: string, b: string, q: nat, l: nat, body: string) {
    q + l + 4 + |body| + |b| + 4 <= |s| &&
    (forall i :: q <= i < q + l ==> s[i] != '\r') &&
    s[q + l] == '\r' && s[q + l + 1] == '\n' && s[q + l + 2] == '\r' && s[q + l + 3] == '\n' &&
    s[q + l + 4..q + l + 4 + |body|] == body &&
    s[q + l + 4 + |body|..q + l + 4 + |body| + |b| + 4] == Delimiter(b)
  }

  lemma PartAt(s: string, b: string, q: nat, p: Part)
    requires FormBoundary(b) && FormPart(b, p)
    requires q + |PartText(p) + Delimiter(b)| <= |s|
    requires s[q..q + |PartText(p) + Delimiter(b)|] == PartText(p) + Delimiter(b)
    ensures PartLayout(s, b, q, |DispositionLine(p.name)|, p.body)
    ensures s[q..q + |DispositionLine(p.name)|] == DispositionLine(p.name)
    ensures |PartText(p)| == |DispositionLine(p.name)| + 4 + |p.body|
  {
    var line := DispositionLine(p.name);
    var d := Delimiter(b);
    DispositionLineNoCr(p.name);
    assert PartText(p) + d == line + ("\r\n\r\n" + (p.body + d));
    LayoutOfText(s, b, q, line, p.body, d, PartText(p) + d);
  }

  /** A header line, an empty line, a body and the delimiter, at q. */
  lemma LayoutOfText(s: string, b: string, q: nat, line: string, body: string, d: string, t: string)
    requires NoCr(line) && d == Delimiter(b) && t == line + ("\r\n\r\n" + (body + d))
    requires q + |t| <= |s| && s[q..q + |t|] == t
    ensures PartLayout(s, b, q, |line|, body) && s[q..q + |line|] == line
  {
    var l, n := |line|, |body|;
    var y1, y2, y3, z := q + l, q + l + 4, q + l + 4 + n, q + l + 4 + n + |b| + 4;
    assert z == q + |t|;
    SplitAt(s, q, y1, z, line, "\r\n\r\n" + (body + d));
    SplitAt(s, y1, y2, z, "\r\n\r\n", body + d);
    SplitAt(s, y2, y3, z, body, d);
    assert s[y1..y2][0] == s[q + l] && s[y1..y2][1] == s[q + l + 1];
    assert s[y1..y2][2] == s[q + l + 2] && s[y1..y2][3] == s[q + l + 3];
    forall i | q <= i < q + l ensures s[i] != '\r' {
      assert s[q..y1][i - q] == s[i];
    }
  }

  /** A slice of s holding u + v splits into u and v. */
  lemma SplitAt(s: string, x: nat, y: nat, z: nat, u: string, v: string)
    requires x <= y <= z <= |s| && y == x + |u| && z == y + |v| && s[x..z] == u + v
    ensures s[x..y] == u && s[y..z] == v
  {
    assert s[x..y] == s[x..z][..|u|];
    assert s[y..z] == s[x..z][|u|..];
  }

  /** No pattern starting with CR occurs inside a CR-free piece of s. */
  lemma NoAtInside(s: string, d: string, c: nat, piece: string)
    requires d != [] && d[0] == '\r' && NoCr(piece)
    requires c + |piece| <= |s| && s[c..c + |piece|] == piece
    ensures forall i :: c <= i < c + |piece| ==> !At(s, d, i)
  {
    forall i | c <= i < c + |piece| ensures !At(s, d, i) {
      assert s[c..c + |piece|][i - c] == s[i];
      NotAt(s, d, i, 0);
    }
  }

  lemma FirstAtFrom(s: string, d: string, q: nat, l: nat, e: nat)
    requires q + l + 4 <= e && At(s, d, e)
    requires forall i :: q <= i < q + l ==> !At(s, d, i)
    requires !At(s, d, q + l) && !At(s, d, q + l + 1) && !At(s, d, q + l + 2) && !At(s, d, q + l + 3)
    requires forall i :: q + l + 4 <= i < e ==> !At(s, d, i)
    ensures FindStr(s, d, q) == Some(e)
  {
    assert forall i :: q <= i < e ==> !At(s, d, i) by {
      forall i | q <= i < e ensures !At(s, d, i) {
        if i < q + l {
        } else if i < q + l + 4 {
        } else {
        }
      }
    }
    FindStrFirst(s, d, q, e);
  }

  /** The parser finds a part's delimiter right after its content. */
  lemma DelimiterAfterContent(s: string, b: string, q: nat, l: nat, body: string, e: nat)
    requires FormBoundary(b) && NoCr(body) && !IsPrefix("--" + b, body)
    requires PartLayout(s, b, q, l, body) && e == q + l + 4 + |body|
    ensures FindStr(s, Delimiter(b), q) == Some(e)
  {
    var d := Delimiter(b);
    DelimiterShape(b);
    AtSlice(s, d, e);
    NoCrNoAt(s, d, q, q + l);
    NotAt(s, d, q + l, 2);
    NotAt(s, d, q + l + 1, 0);
    assert s[e] == d[0] by {
      assert s[e..e + |d|][0] == s[e];
    }
    var i := q + l + 2;
    assert s[i + 2..i + 2 + |body|] == body;
    NoDelimiterAtBody(s, b, i, body);
    NotAt(s, d, q + l + 3, 0);
    NoAtInside(s, d, q + l + 4, body);
    FirstAtFrom(s, d, q, l, e);
  }

  /** A CR LF at position i of s. */
  lemma CrlfAt(s: string, i: nat)
    requires i + 2 <= |s| && s[i] == '\r' && s[i + 1] == '\n'
    ensures At(s, Crlf, i)
  {
    assert s[i..i + 2] == Crlf;
  }

  /** spaceCRLF at a CR LF steps over it. */
  lemma SpaceCrlfAt(s: string, i: nat)
    requires i + 2 <= |s| && s[i] == '\r' && s[i + 1] == '\n'
    ensures SpaceCrlf(s, i) == Ok(i + 2)
  {
    CrlfAt(s, i);
    FindStrFirst(s, Crlf, i, i);
  }

  /** An empty line ends the header loop. */
  lemma EmptyLineStep(s: string, pos: nat, n: string)
    requires pos + 2 <= |s| && s[pos] == '\r' && s[pos + 1] == '\n'
    ensures Headers(s, pos, n) == Ok((pos + 2, n))
  {
    CrlfAt(s, pos);
    FindStrFirst(s, Crlf, pos, pos);
    HeadersEnd(s, pos, n, pos);
  }

  /** A header line without CR that names n, then an empty line: the loop
      ends after the empty line with the name n. */
  lemma HeadersTwoLines(s: string, q: nat, line: string, n: string, r: Result<(nat, string)>)
    requires line != [] && NoCr(line) && HeaderName(line, []) == n && r == Ok((q + |line| + 4, n))
    requires q + |line| + 4 <= |s| && s[q..q + |line|] == line
    requires s[q + |line|] == '\r' && s[q + |line| + 1] == '\n'
    requires s[q + |line| + 2] == '\r' && s[q + |line| + 3] == '\n'
    ensures Headers(s, q, []) == r
  {
    var e := q + |line|;
    EmptyLineStep(s, e + 2, n);
    NoAtInside(s, Crlf, q, line);
    CrlfAt(s, e);
    FindStrFirst(s, Crlf, q, e);
    HeadersLine(s, q, [], e, line, n);
  }

  /** The parts of a form, each followed by the delimiter, the last one by
      "--" and the others by CR LF. */
  function FormParts(b: string, parts: seq<Part>): (r: string)
  {
    if parts == [] then []
    else
      var tail := if |parts| == 1 then "--" else Crlf + FormParts(b, parts[1..]);
      PartText(parts[0]) + Delimiter(b) + tail
  }

  /** A multipart/form-data body: the boundary line, then the parts. */
  function FormBody(b: string, parts: seq<Part>): (r: string)
  {
    "--" + b + Crlf + FormParts(b, parts)
  }

  /** Where the first part of a form starts at q, the text splits into the
      part, its delimiter and the tail. */
  lemma FormPartsHead(s: string, b: string, q: nat, parts: seq<Part>)
    requires parts != [] && q <= |s| && s[q..] == FormParts(b, parts)
    ensures var t := PartText(parts[0]) + Delimiter(b);
      q + |t| <= |s| && s[q..q + |t|] == t &&
      (|parts| == 1 ==> s[q + |t|..] == "--") &&
      (|parts| > 1 ==> s[q + |t|..] == Crlf + FormParts(b, parts[1..]))
  {
    var t := PartText(parts[0]) + Delimiter(b);
    var tail := if |parts| == 1 then "--" else Crlf + FormParts(b, parts[1..]);
    assert s[q..] == t + tail;
    assert s[q..q + |t|] == s[q..][..|t|];
    assert s[q + |t|..] == s[q..][|t|..];
  }

  /** The header loop reads the name of a part laid out at q. */
  lemma PartHeaders(s: string, b: string, q: nat, p: Part)
    requires NoCr(p.name) && Absent(p.name, '"', 0, |p.name|)
    requires PartLayout(s, b, q, |DispositionLine(p.name)|, p.body)
    requires s[q..q + |DispositionLine(p.name)|] == DispositionLine(p.name)
    ensures Headers(s, q, []) == Ok((HeaderEnd(q, p), p.name))
  {
    var line := DispositionLine(p.name);
    DispositionLineNoCr(p.name);
    DispositionName(p.name, []);
    LayoutHeaders(s, b, q, |line|, p.body, line, p.name, HeaderEnd(q, p));
  }

  /** The header loop over a laid-out part whose header line names n. */
  lemma LayoutHeaders(s: string, b: string, q: nat, l: nat, body: string, line: string, n: string,
                       e: nat)
    requires PartLayout(s, b, q, l, body) && l == |line| && s[q..q + l] == line
    requires line != [] && HeaderName(line, []) == n && e == q + l + 4
    ensures Headers(s, q, []) == Ok((e, n))
  {
    forall i | 0 <= i < |line| ensures line[i] != '\r' {
      assert s[q..q + l][i] == s[q + i];
    }
    HeadersTwoLines(s, q, line, n, Ok((e, n)));
  }

  /** The parser finds the delimiter of a part laid out at q. */
  lemma PartDelimiter(s: string, b: string, q: nat, p: Part)
    requires FormBoundary(b) && FormPart(b, p)
    requires PartLayout(s, b, q, |DispositionLine(p.name)|, p.body)
    ensures FindStr(s, Delimiter(b), q) == Some(ContentEnd(q, p))
  {
    DelimiterAfterContent(s, b, q, |DispositionLine(p.name)|, p.body, ContentEnd(q, p));
  }

  /** The parser finds the delimiter, the name and the content of a part
      laid out at q. */
  lemma PartParsed(s: string, b: string, q: nat, p: Part)
    requires FormBoundary(b) && FormPart(b, p)
    requires PartLayout(s, b, q, |DispositionLine(p.name)|, p.body)
    requires s[q..q + |DispositionLine(p.name)|] == DispositionLine(p.name)
    ensures FindStr(s, Delimiter(b), q) == Some(ContentEnd(q, p))
    ensures Headers(s, q, []) == Ok((HeaderEnd(q, p), p.name))
    ensures PartBody(s, HeaderEnd(q, p), ContentEnd(q, p)) == p.body
  {
    PartHeaders(s, b, q, p);
    PartDelimiter(s, b, q, p);
  }

  /** Where the content of part p laid out at q starts... */
  function HeaderEnd(q: nat, p: Part): nat
  {
    q + |DispositionLine(p.name)| + 4
  }

  /** ... and where it ends. */
  function ContentEnd(q: nat, p: Part): nat
  {
    HeaderEnd(q, p) + |p.body|
  }

  /** The position just after the delimiter of part p laid out at q. */
  function PartEnd(b: string, q: nat, p: Part): nat
  {
    ContentEnd(q, p) + |Delimiter(b)|
  }

  /** Part p laid out at q of s and followed by its delimiter, then by
      "--" when it is the last part and by CR LF otherwise. */
  predicate PartAtPos(s: string, b: string, q: nat, p: Part, last: bool) {
    PartLayout(s, b, q, |DispositionLine(p.name)|, p.body) &&
    s[q..q + |DispositionLine(p.name)|] == DispositionLine(p.name) &&
    PartEnd(b, q, p) + 2 <= |s| &&
    (last ==> s[PartEnd(b, q, p)] == '-' && s[PartEnd(b, q, p) + 1] == '-') &&
    (!last ==> s[PartEnd(b, q, p)] == '\r' && s[PartEnd(b, q, p) + 1] == '\n')
  }

  /** Where part k of a form laid out from q starts. */
  function Start(b: string, q: nat, parts: seq<Part>, k: nat): nat
    requires k <= |parts|
  {
    if k == 0 then q else PartEnd(b, Start(b, q, parts, k - 1), parts[k - 1]) + 2
  }

  /** Part k of a form laid out from q is where Start puts it. */
  predicate PartIndexAt(s: string, b: string, q: nat, parts: seq<Part>, k: nat)
    requires k < |parts|
  {
    if k == |parts| - 1 then PartAtPos(s, b, Start(b, q, parts, k), parts[k], true)
    else PartAtPos(s, b, Start(b, q, parts, k), parts[k], false)
  }

  /** The parts of a form laid out one after the other from q. */
  predicate FormPartsAt(s: string, b: string, q: nat, parts: seq<Part>) {
    forall k :: 0 <= k < |parts| ==> PartIndexAt(s, b, q, parts, k)
  }

  /** The first part of a form at q is laid out as the parser expects. */
  lemma FormPartText(s: string, b: string, q: nat, parts: seq<Part>)
    requires FormBoundary(b) && parts != [] && FormPart(b, parts[0])
    requires q <= |s| && s[q..] == FormParts(b, parts)
    ensures PartLayout(s, b, q, |DispositionLine(parts[0].name)|, parts[0].body)
    ensures s[q..q + |DispositionLine(parts[0].name)|] == DispositionLine(parts[0].name)
    ensures |PartText(parts[0])| == |DispositionLine(parts[0].name)| + 4 + |parts[0].body|
  {
    FormPartsHead(s, b, q, parts);
    PartAt(s, b, q, parts[0]);
  }

  /** What follows the delimiter of the first part of a form at q. */
  lemma FormPartTail(s: string, b: string, q: nat, parts: seq<Part>)
    requires parts != [] && q <= |s| && s[q..] == FormParts(b, parts)
    ensures q + |PartText(parts[0]) + Delimiter(b)| + 2 <= |s|
    ensures |parts| == 1 ==>
      s[q + |PartText(parts[0]) + Delimiter(b)|] == '-' && s[q + |PartText(parts[0]) + Delimiter(b)| + 1] == '-'
    ensures |parts| > 1 ==>
      s[q + |PartText(parts[0]) + Delimiter(b)|] == '\r' && s[q + |PartText(parts[0]) + Delimiter(b)| + 1] == '\n'
    ensures |parts| > 1 ==> s[q + |PartText(parts[0]) + Delimiter(b)| + 2..] == FormParts(b, parts[1..])
  {
    FormPartsHead(s, b, q, parts);
    var next := q + |PartText(parts[0]) + Delimiter(b)|;
    assert s[next] == s[next..][0] && s[next + 1] == s[next..][1];
    if |parts| > 1 {
      assert s[next + 2..] == s[next..][2..];
    }
  }

  /** The first part of a form text at q, laid out as the parser expects. */
  lemma FormPartFirst(s: string, b: string, q: nat, parts: seq<Part>)
    requires FormBoundary(b) && parts != [] && FormPart(b, parts[0])
    requires q <= |s| && s[q..] == FormParts(b, parts)
    ensures PartAtPos(s, b, q, parts[0], |parts| == 1)
    ensures |parts| > 1 ==> s[PartEnd(b, q, parts[0]) + 2..] == FormParts(b, parts[1..])
  {
    FormPartText(s, b, q, parts);
    FormPartTail(s, b, q, parts);
    assert PartEnd(b, q, parts[0]) == q + |PartText(parts[0]) + Delimiter(b)|;
  }

  /** Part k of a form text laid out from q. */
  lemma FormPartAtIndex(s: string, b: string, q: nat, parts: seq<Part>, k: nat)
    requires FormBoundary(b) && k < |parts| && FormPart(b, parts[k])
    requires Start(b, q, parts, k) <= |s| && s[Start(b, q, parts, k)..] == FormParts(b, parts[k..])
    ensures PartIndexAt(s, b, q, parts, k)
    ensures k + 1 < |parts| ==>
      Start(b, q, parts, k + 1) <= |s| && s[Start(b, q, parts, k + 1)..] == FormParts(b, parts[k + 1..])
  {
    var r := parts[k..];
    assert r[0] == parts[k];
    assert r[1..] == parts[k + 1..];
    var st := Start(b, q, parts, k);
    FormPartFirst(s, b, st, r);
    if k + 1 < |parts| {
      assert |r| > 1;
      StartNext(s, b, q, parts, k, r, st);
    }
  }

  /** Part k + 1 starts two bytes after the delimiter that ends part k. */
  lemma StartNext(s: string, b: string, q: nat, parts: seq<Part>, k: nat, r: seq<Part>, st: nat)
    requires k + 1 < |parts| && r == parts[k..] && st == Start(b, q, parts, k)
    requires PartEnd(b, st, r[0]) + 2 <= |s| && s[PartEnd(b, st, r[0]) + 2..] == FormParts(b, r[1..])
    ensures Start(b, q, parts, k + 1) <= |s| && s[Start(b, q, parts, k + 1)..] == FormParts(b, parts[k + 1..])
  {
    assert r[0] == parts[k] && r[1..] == parts[k + 1..];
  }

  /** The parts of a form text from part k on are laid out as
      FormPartsAt states. */
  lemma {:induction false} FormPartsLaidOutFrom(s: string, b: string, q: nat, parts: seq<Part>, k: nat)
    requires FormBoundary(b) && forall i :: 0 <= i < |parts| ==> FormPart(b, parts[i])
    requires k < |parts| && Start(b, q, parts, k) <= |s| && s[Start(b, q, parts, k)..] == FormParts(b, parts[k..])
    ensures forall j :: k <= j < |parts| ==> PartIndexAt(s, b, q, parts, j)
    decreases |parts| - k
  {
    FormPartAtIndex(s, b, q, parts, k);
    if k + 1 < |parts| {
      FormPartsLaidOutFrom(s, b, q, parts, k + 1);
    }
    IndexAtFrom(s, b, q, parts, k);
  }

  lemma IndexAtFrom(s: string, b: string, q: nat, parts: seq<Part>, k: nat)
    requires k < |parts| && PartIndexAt(s, b, q, parts, k)
    requires forall j :: k + 1 <= j < |parts| ==> PartIndexAt(s, b, q, parts, j)
    ensures forall j :: k <= j < |parts| ==> PartIndexAt(s, b, q, parts, j)
  {
  }

  /** The text of a form from q is laid out as FormPartsAt states. */
  lemma FormPartsLaidOut(s: string, b: string, q: nat, parts: seq<Part>)
    requires FormBoundary(b) && forall i :: 0 <= i < |parts| ==> FormPart(b, parts[i])
    requires parts != [] && q <= |s| && s[q..] == FormParts(b, parts)
    ensures FormPartsAt(s, b, q, parts)
  {
    assert parts[0..] == parts;
    FormPartsLaidOutFrom(s, b, q, parts, 0);
  }

  /** A round of the part loop ending in "--" ends the loop. */
  lemma PartsRoundLast(s: string, d: string, q: nat, e: nat, h: (nat, string), n: nat, p: Part,
                        acc: seq<Part>)
    requires q < e && q < |s| && FindStr(s, d, q) == Some(e) && Headers(s, q, []) == Ok(h)
    requires n == e + |d| && n + 2 <= |s| && s[n] == '-' && s[n + 1] == '-'
    requires h.0 <= |s| && p == Part(h.1, PartBody(s, h.0, e))
    ensures PartsFrom(s, d, q, acc) == Ok(acc + [p])
  {
    RoundLastIs(s, d, q, e, h, n, Ok(Round(p, None)));
    FromLast(s, d, q, acc, p);
  }

  /** The round at q when "--" follows the delimiter. */
  lemma RoundLastIs(s: string, d: string, q: nat, e: nat, h: (nat, string), n: nat, r: Result<Round>)
    requires q < e && FindStr(s, d, q) == Some(e) && Headers(s, q, []) == Ok(h)
    requires n == e + |d| && n + 2 <= |s| && s[n] == '-' && s[n + 1] == '-'
    requires r == Ok(Round(Part(h.1, PartBody(s, h.0, e)), None))
    ensures PartRound(s, d, q) == r
  {
    RoundLastOf(s, d, q, e, h, n);
    RoundIs(s, d, q, e, h, r);
  }

  /** A round of the part loop ending in CR LF goes on after it. */
  lemma PartsRoundNext(s: string, d: string, q: nat, e: nat, h: (nat, string), n: nat, p: Part,
                        acc: seq<Part>, next: nat)
    requires q < e && q < |s| && FindStr(s, d, q) == Some(e) && Headers(s, q, []) == Ok(h)
    requires n == e + |d| && n + 2 <= |s| && s[n] == '\r' && s[n + 1] == '\n' && next == n + 2
    requires h.0 <= |s| && p == Part(h.1, PartBody(s, h.0, e))
    ensures PartsFrom(s, d, q, acc) == PartsFrom(s, d, next, acc + [p])
  {
    RoundNextIs(s, d, q, e, h, n, Ok(Round(p, Some(next))));
    FromNext(s, d, q, acc, p, next);
  }

  /** The round at q when CR LF follows the delimiter. */
  lemma RoundNextIs(s: string, d: string, q: nat, e: nat, h: (nat, string), n: nat, r: Result<Round>)
    requires q < e && FindStr(s, d, q) == Some(e) && Headers(s, q, []) == Ok(h)
    requires n == e + |d| && n + 2 <= |s| && s[n] == '\r' && s[n + 1] == '\n'
    requires r == Ok(Round(Part(h.1, PartBody(s, h.0, e)), Some(n + 2)))
    ensures PartRound(s, d, q) == r
  {
    SpaceCrlfAt(s, n);
    RoundNextOf(s, d, q, e, h, n);
    RoundIs(s, d, q, e, h, r);
  }

  /** The part loop over the last part of a form, laid out at q. */
  lemma PartStepLast(s: string, b: string, q: nat, p: Part, acc: seq<Part>)
    requires FormBoundary(b) && FormPart(b, p) && PartAtPos(s, b, q, p, true)
    ensures PartsFrom(s, Delimiter(b), q, acc) == Ok(acc + [p])
  {
    PartParsed(s, b, q, p);
    PartsLastParsed(s, b, q, p, acc);
  }

  /** The part loop over a parsed part followed by "--". */
  lemma PartsLastParsed(s: string, b: string, q: nat, p: Part, acc: seq<Part>)
    requires FindStr(s, Delimiter(b), q) == Some(ContentEnd(q, p))
    requires Headers(s, q, []) == Ok((HeaderEnd(q, p), p.name))
    requires PartBody(s, HeaderEnd(q, p), ContentEnd(q, p)) == p.body
    requires PartEnd(b, q, p) + 2 <= |s| && s[PartEnd(b, q, p)] == '-' && s[PartEnd(b, q, p) + 1] == '-'
    ensures PartsFrom(s, Delimiter(b), q, acc) == Ok(acc + [p])
  {
    PartsRoundLast(s, Delimiter(b), q, ContentEnd(q, p), (HeaderEnd(q, p), p.name), PartEnd(b, q, p), p, acc);
  }

  /** The part loop over a part laid out at q that is not the last one. */
  lemma PartStepNext(s: string, b: string, q: nat, p: Part, acc: seq<Part>, next: nat)
    requires FormBoundary(b) && FormPart(b, p) && PartAtPos(s, b, q, p, false)
    requires next == PartEnd(b, q, p) + 2
    ensures PartsFrom(s, Delimiter(b), q, acc) == PartsFrom(s, Delimiter(b), next, acc + [p])
  {
    PartParsed(s, b, q, p);
    PartsRoundNext(s, Delimiter(b), q, ContentEnd(q, p), (HeaderEnd(q, p), p.name), PartEnd(b, q, p), p, acc, next);
  }

  /** Part j of a form sits at st[j], and the next part starts two bytes
      after its delimiter. */
  predicate Slot(s: string, b: string, st: seq<nat>, parts: seq<Part>, j: nat)
    requires j < |parts| == |st|
  {
    if j + 1 == |parts| then PartAtPos(s, b, st[j], parts[j], true)
    else PartAtPos(s, b, st[j], parts[j], false) && st[j + 1] == PartEnd(b, st[j], parts[j]) + 2
  }

  /** The parts of a form laid out at the positions st. */
  predicate Slots(s: string, b: string, st: seq<nat>, parts: seq<Part>) {
    |st| == |parts| && forall j :: 0 <= j < |parts| ==> Slot(s, b, st, parts, j)
  }

  /** The positions Start gives the parts of a form laid out from q. */
  lemma ToSlots(s: string, b: string, q: nat, parts: seq<Part>, st: seq<nat>)
    requires FormPartsAt(s, b, q, parts)
    requires |st| == |parts| && forall j :: 0 <= j < |st| ==> st[j] == Start(b, q, parts, j)
    ensures Slots(s, b, st, parts)
  {
    forall j | 0 <= j < |parts|
      ensures Slot(s, b, st, parts, j)
    {
      assert PartIndexAt(s, b, q, parts, j);
      if j + 1 < |parts| {
        assert st[j + 1] == Start(b, q, parts, j + 1);
      }
    }
  }

  /** A part of a form laid out at st that is not the last one steps the
      part loop on to the next part. */
  lemma SlotNext(s: string, b: string, st: seq<nat>, parts: seq<Part>, j: nat, acc: seq<Part>)
    requires FormBoundary(b) && j + 1 < |parts| == |st| && FormPart(b, parts[j])
    requires Slot(s, b, st, parts, j)
    ensures PartsFrom(s, Delimiter(b), st[j], acc) == PartsFrom(s, Delimiter(b), st[j + 1], acc + [parts[j]])
  {
    PartStepNext(s, b, st[j], parts[j], acc, st[j + 1]);
  }

  /** The last part of a form laid out at st ends the part loop. */
  lemma SlotLast(s: string, b: string, st: seq<nat>, parts: seq<Part>, j: nat, acc: seq<Part>)
    requires FormBoundary(b) && j + 1 == |parts| == |st| && FormPart(b, parts[j])
    requires Slot(s, b, st, parts, j)
    ensures PartsFrom(s, Delimiter(b), st[j], acc) == Ok(acc + [parts[j]])
  {
    PartStepLast(s, b, st[j], parts[j], acc);
  }

  /** Every part of a form laid out at st but the last steps the part loop
      on to the next part. */
  lemma SlotsNext(s: string, b: string, st: seq<nat>, parts: seq<Part>, last: nat)
    requires FormBoundary(b) && forall i :: 0 <= i < |parts| ==> FormPart(b, parts[i])
    requires Slots(s, b, st, parts) && last + 1 == |parts|
    ensures forall j, a :: 0 <= j < last ==>
      PartsFrom(s, Delimiter(b), st[j], a) == PartsFrom(s, Delimiter(b), st[j + 1], a + [parts[j]])
  {
    forall j, a | 0 <= j < last
      ensures PartsFrom(s, Delimiter(b), st[j], a) == PartsFrom(s, Delimiter(b), st[j + 1], a + [parts[j]])
    {
      SlotNext(s, b, st, parts, j, a);
    }
  }

  /** The last part of a form laid out at st ends the part loop. */
  lemma SlotsLast(s: string, b: string, st: seq<nat>, parts: seq<Part>, last: nat)
    requires FormBoundary(b) && forall i :: 0 <= i < |parts| ==> FormPart(b, parts[i])
    requires Slots(s, b, st, parts) && last + 1 == |parts|
    ensures forall a :: PartsFrom(s, Delimiter(b), st[last], a) == Ok(a + [parts[last]])
  {
    forall a
      ensures PartsFrom(s, Delimiter(b), st[last], a) == Ok(a + [parts[last]])
    {
      SlotLast(s, b, st, parts, last, a);
    }
  }

  lemma AppendSlice<T>(acc: seq<T>, xs: seq<T>, k: nat)
    requires k < |xs|
    ensures acc + [xs[k]] + xs[k + 1..] == acc + xs[k..]
  {
    assert xs[k..] == [xs[k]] + xs[k + 1..];
  }

  /** Rounds of the part loop chain: where the round at st[j] reads part j
      and goes on at st[j + 1], and the round at the last position reads
      the last part and stops, the loop from st[k] reads parts k onwards. */
  lemma {:induction false} RoundsChain(s: string, d: string, st: seq<nat>, parts: seq<Part>, last: nat, k: nat, acc: seq<Part>)
    requires |st| == |parts| && last + 1 == |parts| && k <= last
    requires forall j, a :: 0 <= j < last ==> PartsFrom(s, d, st[j], a) == PartsFrom(s, d, st[j + 1], a + [parts[j]])
    requires forall a :: PartsFrom(s, d, st[last], a) == Ok(a + [parts[last]])
    ensures PartsFrom(s, d, st[k], acc) == Ok(acc + parts[k..])
    decreases last - k
  {
    if k == last {
      assert parts[k..] == [parts[k]];
    } else {
      RoundsChain(s, d, st, parts, last, k + 1, acc + [parts[k]]);
      AppendSlice(acc, parts, k);
    }
  }

  /** The part loop reads the parts laid out from q, in order. */
  lemma FormPartsParsed(s: string, b: string, q: nat, parts: seq<Part>, acc: seq<Part>, r: seq<Part>)
    requires FormBoundary(b) && forall i :: 0 <= i < |parts| ==> FormPart(b, parts[i])
    requires parts != [] && FormPartsAt(s, b, q, parts) && r == acc + parts
    ensures PartsFrom(s, Delimiter(b), q, acc) == Ok(r)
  {
    var st := seq(|parts|, j requires 0 <= j < |parts| => Start(b, q, parts, j));
    ToSlots(s, b, q, parts, st);
    SlotsNext(s, b, st, parts, |parts| - 1);
    SlotsLast(s, b, st, parts, |parts| - 1);
    RoundsChain(s, Delimiter(b), st, parts, |parts| - 1, 0, acc);
    assert st[0] == q && parts[0..] == parts;
  }

  /** A form body starts with its boundary line. */
  lemma FormBodyStart(b: string, parts: seq<Part>)
    requires FormBoundary(b)
    ensures FindStr(FormBody(b, parts), "--" + b, 0) == Some(0)
  {
    var m, rest := "--" + b, Crlf + FormParts(b, parts);
    assert FormBody(b, parts) == m + rest;
    FindAtStart(m + rest, m);
    assert (m + rest)[..|m|] == m;
  }

  /** spaceCRLF from the start of a CR-free line followed by CR LF. */
  lemma SpaceCrlfLine(s: string, m: string, rest: string)
    requires NoCr(m) && s == m + (Crlf + rest)
    ensures SpaceCrlf(s, 0) == Ok(|m| + 2)
  {
    assert s[0..|m|] == m;
    NoAtInside(s, Crlf, 0, m);
    assert s[|m|] == '\r' && s[|m| + 1] == '\n';
    CrlfAt(s, |m|);
    FindStrFirst(s, Crlf, 0, |m|);
  }

  /** The boundary line of a form body ends with the first CR LF. */
  lemma FormBodyLine(b: string, parts: seq<Part>)
    requires FormBoundary(b)
    ensures SpaceCrlf(FormBody(b, parts), 0) == Ok(|b| + 4)
  {
    var m := "--" + b;
    assert NoCr(m);
    assert FormBody(b, parts) == m + (Crlf + FormParts(b, parts));
    SpaceCrlfLine(FormBody(b, parts), m, FormParts(b, parts));
  }

  /** A form without parts ends with its boundary line. */
  lemma FormBodyEmpty(b: string, parts: seq<Part>)
    requires |parts| == 0
    ensures PartsFrom(FormBody(b, parts), Delimiter(b), |b| + 4, []) == Ok(parts)
  {
    EmptyFormLength(b, parts);
    EmptyFormEnd(b, parts);
  }

  lemma EmptyFormEnd(b: string, parts: seq<Part>)
    requires |parts| == 0 && |FormBody(b, parts)| == |b| + 4
    ensures PartsFrom(FormBody(b, parts), Delimiter(b), |b| + 4, []) == Ok(parts)
  {
    PartsFromEnd(FormBody(b, parts), Delimiter(b), |b| + 4, [], parts);
  }

  lemma EmptyFormLength(b: string, parts: seq<Part>)
    requires |parts| == 0
    ensures |FormBody(b, parts)| == |b| + 4
  {
    assert FormParts(b, parts) == [];
  }

  /** The part loop stops at the end of the body. */
  lemma PartsFromEnd(body: string, delim: string, off: nat, acc: seq<Part>, r: seq<Part>)
    requires off >= |body| && r == acc
    ensures PartsFrom(body, delim, off, acc) == Ok(r)
  {
  }

  /** The parts of a form body start after its boundary line. */
  lemma FormBodyLaidOut(b: string, parts: seq<Part>)
    requires FormBoundary(b) && forall i :: 0 <= i < |parts| ==> FormPart(b, parts[i])
    requires parts != []
    ensures FormPartsAt(FormBody(b, parts), b, |b| + 4, parts)
  {
    var body := FormBody(b, parts);
    assert body == ("--" + b + Crlf) + FormParts(b, parts);
    assert body[|b| + 4..] == FormParts(b, parts);
    FormPartsLaidOut(body, b, |b| + 4, parts);
  }

  /** The part loop reads the parts of a form body after its boundary
      line. */
  lemma FormBodyParts(b: string, parts: seq<Part>)
    requires FormBoundary(b) && forall i :: 0 <= i < |parts| ==> FormPart(b, parts[i])
    ensures PartsFrom(FormBody(b, parts), Delimiter(b), |b| + 4, []) == Ok(parts)
  {
    if |parts| == 0 {
      FormBodyEmpty(b, parts);
    } else {
      FormBodyMany(b, parts);
    }
  }

  lemma FormBodyMany(b: string, parts: seq<Part>)
    requires FormBoundary(b) && forall i :: 0 <= i < |parts| ==> FormPart(b, parts[i])
    requires parts != []
    ensures PartsFrom(FormBody(b, parts), Delimiter(b), |b| + 4, []) == Ok(parts)
  {
    var body, q := FormBody(b, parts), |b| + 4;
    assert [] + parts == parts;
    FormBodyLaidOut(b, parts);
    FormPartsParsed(body, b, q, parts, [], parts);
  }

  /** A form built from parts whose names and contents the parser can
      delimit is parsed back into exactly those parts. */
  lemma MultiPartRoundTrip(b: string, parts: seq<Part>)
    requires FormBoundary(b) && forall i :: 0 <= i < |parts| ==> FormPart(b, parts[i])
    ensures ParseMultiPart(FormContentType(b), FormBody(b, parts)) == Ok(parts)
  {
    FormBoundaryOf(b);
    FormBodyStart(b, parts);
    FormBodyLine(b, parts);
    FormBodyParts(b, parts);
  }
}
