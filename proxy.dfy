/** The search proxy of src/proxy.cpp: the backend file parser and the
    round-robin retry over one set of backends. */
module Proxy {
  import opened Wrappers
  import opened Strings
  import opened Arith

  // ------------------------------------------------ string order and sets

  /** std::string operator<: lexicographic by character code. */
  predicate Less(a: string, b: string)
    decreases |a|
  {
    if a == [] then b != []
    else if b == [] then false
    else if a[0] != b[0] then a[0] < b[0]
    else Less(a[1..], b[1..])
  }

  lemma {:induction false} LessIrreflexive(a: string)
    ensures !Less(a, a)
    decreases |a|
  {
    if a != [] { LessIrreflexive(a[1..]); }
  }

  lemma {:induction false} LessTotal(a: string, b: string)
    ensures a == b || Less(a, b) || Less(b, a)
    decreases |a|
  {
    if a != [] && b != [] && a[0] == b[0] {
      LessTotal(a[1..], b[1..]);
      if a[1..] == b[1..] { assert a == [a[0]] + a[1..] && b == [b[0]] + b[1..]; }
    }
  }

  lemma {:induction false} LessTransitive(a: string, b: string, c: string)
    requires Less(a, b) && Less(b, c)
    ensures Less(a, c)
    decreases |a|
  {
    if a != [] && b != [] && c != [] && a[0] == b[0] && b[0] == c[0] {
      LessTransitive(a[1..], b[1..], c[1..]);
    }
  }

  lemma LessAsymmetric(a: string, b: string)
    requires Less(a, b)
    ensures !Less(b, a)
  {
    if Less(b, a) {
      LessTransitive(a, b, a);
      LessIrreflexive(a);
    }
  }

  /** A std::set<string>: strictly ascending, hence without duplicates. */
  predicate StrictlySorted(s: seq<string>) {
    forall i, j :: 0 <= i < j < |s| ==> Less(s[i], s[j])
  }

  /** set::insert: the new set and whether x was absent. */
  function SetInsert(s: seq<string>, x: string): (r: (seq<string>, bool))
    requires StrictlySorted(s)
    ensures StrictlySorted(r.0)
    ensures r.1 <==> x !in s
    ensures !r.1 ==> r.0 == s
    ensures forall y :: y in r.0 <==> y in s || y == x
    ensures |r.0| == |s| + (if r.1 then 1 else 0)
  {
    SetInsertAt(s, x, 0)
  }

  function SetInsertAt(s: seq<string>, x: string, i: nat): (r: (seq<string>, bool))
    requires StrictlySorted(s) && i <= |s|
    requires forall k :: 0 <= k < i ==> Less(s[k], x)
    ensures StrictlySorted(r.0)
    ensures r.1 <==> x !in s
    ensures !r.1 ==> r.0 == s
    ensures forall y :: y in r.0 <==> y in s || y == x
    ensures |r.0| == |s| + (if r.1 then 1 else 0)
    decreases |s| - i
  {
    if i == |s| then
      assert forall k :: 0 <= k < |s| ==> s[k] != x by {
        forall k | 0 <= k < |s| ensures s[k] != x { LessIrreflexive(x); }
      }
      var r := s + [x];
      assert forall y :: y in r <==> y in s || y == x;
      (r, true)
    else if s[i] == x then (s, false)
    else if Less(x, s[i]) then
      var r := s[..i] + [x] + s[i..];
      assert x !in s by {
        forall k | 0 <= k < |s| ensures s[k] != x {
          if k < i { LessIrreflexive(x); }
          else if k > i { LessTransitive(x, s[i], s[k]); LessIrreflexive(x); }
        }
      }
      assert StrictlySorted(r) by {
        forall a, b | 0 <= a < b < |r| ensures Less(r[a], r[b]) {
          if a < i && b > i { assert r[b] == s[b - 1]; if b - 1 > i { LessTransitive(x, s[i], s[b - 1]); } }
          else if a == i { assert r[b] == s[b - 1]; if b - 1 > i { LessTransitive(x, s[i], s[b - 1]); } }
          else if a > i { assert r[a] == s[a - 1] && r[b] == s[b - 1]; }
        }
      }
      assert forall y :: y in r <==> y in s || y == x by {
        assert s == s[..i] + s[i..];
      }
      (r, true)
    else
      LessTotal(x, s[i]);
      SetInsertAt(s, x, i + 1)
  }

  // --------------------------------------------------------- backend file

  /** One line of the backends file after removing a comment and trimming;
      None for a blank line. */
  function CleanLine(line: string): string {
    var cut := match Find(line, '#', 0) case None => line case Some(o) => line[..o];
    Trim(cut)
  }

  /** Every character of s is whitespace (in particular, s may be empty). */
  predicate AllSpace(s: string) {
    forall i :: 0 <= i < |s| ==> IsSpace(s[i])
  }

  /** `>>` into a string: the first whitespace-separated token of s and what
      follows it.  Leading whitespace is skipped, the token runs up to the
      next whitespace or the end, and it is empty only when s is all
      whitespace. */
  function NextToken(s: string): (r: (string, string))
    ensures |r.1| <= |s|
    ensures forall i :: 0 <= i < |r.0| ==> !IsSpace(r.0[i])
    decreases |s|
  {
    var t := TrimLeft(s);
    TokenPrefix(t, 0)
  }

  /** What `>>` skips and takes: s is whitespace, then the token, then the
      rest, which starts with whitespace unless it is empty; the token is
      empty exactly when s is all whitespace, and then so is the rest. */
  lemma NextTokenShape(s: string)
    ensures var (a, b) := NextToken(s);
      |a| + |b| <= |s| && s[|s| - |a| - |b|..] == a + b &&
      AllSpace(s[..|s| - |a| - |b|]) && (b == [] || IsSpace(b[0])) &&
      (a == [] <==> AllSpace(s)) && (a == [] ==> b == [])
  {
    var t := TrimLeft(s);
    var r := TokenPrefix(t, 0);
    TokenSplit(s, t, r.0, r.1);
  }

  /** The facts of NextToken from those of TrimLeft and TokenPrefix. */
  lemma TokenSplit(s: string, t: string, a: string, b: string)
    requires |t| <= |s| && t == s[|s| - |t|..] && (t == [] || !IsSpace(t[0]))
    requires forall i :: 0 <= i < |s| - |t| ==> IsSpace(s[i])
    requires |a| <= |t| && a == t[..|a|] && b == t[|a|..]
    requires (forall k :: 0 <= k < |a| ==> !IsSpace(a[k])) && (b == [] || IsSpace(b[0]))
    ensures |a| + |b| == |t| && a + b == t
    ensures AllSpace(s[..|s| - |a| - |b|])
    ensures a == [] <==> AllSpace(s)
    ensures a == [] ==> b == []
  {
    assert a + b == t;
    if a == [] {
      assert b == t;
      if t != [] {
        assert false;
      }
      assert AllSpace(s);
    } else {
      assert s[|s| - |t|] == t[0] == a[0];
      assert !IsSpace(s[|s| - |t|]);
    }
  }

  function TokenPrefix(t: string, i: nat): (r: (string, string))
    requires i <= |t| && forall k :: 0 <= k < i ==> !IsSpace(t[k])
    ensures |r.1| <= |t| && forall k :: 0 <= k < |r.0| ==> !IsSpace(r.0[k])
    ensures i <= |r.0| <= |t| && r.0 == t[..|r.0|] && r.1 == t[|r.0|..]
    ensures r.1 == [] || IsSpace(r.1[0])
    decreases |t| - i
  {
    if i < |t| && !IsSpace(t[i]) then TokenPrefix(t, i + 1) else (t[..i], t[i..])
  }

  /** `ss >> address >> tag` on a cleaned line; a missing tag is "": the tag
      is empty exactly when nothing but whitespace follows the address. */
  function AddressAndTag(line: string): (r: (string, string))
    ensures forall i :: 0 <= i < |r.0| ==> !IsSpace(r.0[i])
    ensures forall i :: 0 <= i < |r.1| ==> !IsSpace(r.1[i])
    ensures r.0 == NextToken(line).0
    ensures r.1 == [] <==> AllSpace(NextToken(line).1)
    ensures r.1 != [] ==> r.0 != []
  {
    var (address, rest) := NextToken(line);
    NextTokenShape(line);
    NextTokenShape(rest);
    var (tag, _) := NextToken(rest);
    (address, tag)
  }

  /** The tag -> address-set dictionary after some lines, with the number
      of pairs that were new when read. */
  datatype Loaded = Loaded(dict: map<string, seq<string>>, count: nat)

  predicate WellFormedDict(d: map<string, seq<string>>) {
    forall t :: t in d ==> StrictlySorted(d[t]) && d[t] != []
  }

  /** `dict[tag].insert(address)`: the tag's set, created empty on first use. */
  function AddPair(l: Loaded, line: string): (r: Loaded)
    requires WellFormedDict(l.dict)
    ensures WellFormedDict(r.dict)
  {
    var c := CleanLine(line);
    if c == [] then l
    else
      var (address, tag) := AddressAndTag(c);
      var old_ := if tag in l.dict then l.dict[tag] else [];
      var (s, inserted) := SetInsert(old_, address);
      StoreWellFormed(l.dict, tag, s);
      Loaded(l.dict[tag := s], if inserted then l.count + 1 else l.count)
  }

  /** Storing a sorted, non-empty set under a tag keeps the dictionary
      well formed. */
  lemma StoreWellFormed(d: map<string, seq<string>>, tag: string, s: seq<string>)
    requires WellFormedDict(d) && StrictlySorted(s) && s != []
    ensures WellFormedDict(d[tag := s])
  {
  }

  function LoadLines(lines: seq<string>): (r: Loaded)
    ensures WellFormedDict(r.dict)
  {
    if lines == [] then Loaded(map[], 0) else AddPair(LoadLines(lines[..|lines| - 1]), lines[|lines| - 1])
  }

  /** After a line is added its pair is present. */
  lemma AddPairStores(l: Loaded, line: string)
    requires WellFormedDict(l.dict) && CleanLine(line) != []
    ensures var (address, tag) := AddressAndTag(CleanLine(line));
      tag in AddPair(l, line).dict && address in AddPair(l, line).dict[tag]
  {
  }

  /** Adding a pair that is already present changes nothing. */
  lemma AddPairPresent(l: Loaded, line: string)
    requires WellFormedDict(l.dict) && CleanLine(line) != []
    requires var (address, tag) := AddressAndTag(CleanLine(line)); tag in l.dict && address in l.dict[tag]
    ensures AddPair(l, line) == l
  {
    var (address, tag) := AddressAndTag(CleanLine(line));
    var (s, inserted) := SetInsert(l.dict[tag], address);
    assert !inserted && s == l.dict[tag];
    MapSameUpdate(l.dict, tag, s);
  }

  /** Storing a key's own value leaves a map as it was. */
  lemma MapSameUpdate<K, V>(m: map<K, V>, k: K, v: V)
    requires k in m && m[k] == v
    ensures m[k := v] == m
  {
  }

  /** A line read a second time changes neither the dictionary nor the count. */
  lemma RepeatedLine(lines: seq<string>, line: string)
    ensures LoadLines(lines + [line, line]) == LoadLines(lines + [line])
  {
    var once := lines + [line];
    var twice := lines + [line, line];
    assert twice[..|twice| - 1] == once;
    assert once[..|once| - 1] == lines;
    var l0 := LoadLines(lines);
    var l := LoadLines(once);
    assert l == AddPair(l0, line);
    assert LoadLines(twice) == AddPair(l, line);
    if CleanLine(line) != [] {
      AddPairStores(l0, line);
      AddPairPresent(l, line);
    }
  }

  /** A comment-only or blank line changes nothing. */
  lemma CommentLine(lines: seq<string>, comment: string)
    ensures LoadLines(lines + ["#" + comment]) == LoadLines(lines)
  {
    var line := "#" + comment;
    assert line[0] == '#';
    FindFirst(line, '#', 0, 0);
    assert (lines + [line])[..|lines|] == lines;
  }

  /** The loop over the lines of the backends file. */
  method LoadBackendFile(lines: seq<string>) returns (l: Loaded)
    ensures l == LoadLines(lines)
  {
    l := Loaded(map[], 0);
    var i := 0;
    while i < |lines|
      invariant 0 <= i <= |lines| && l == LoadLines(lines[..i])
    {
      l := LoadStep(lines, i, l);
      i := i + 1;
    }
    assert lines[..i] == lines;
  }

  /** One round of the loop: line i read into what lines[..i] loaded. */
  method LoadStep(lines: seq<string>, i: nat, l: Loaded) returns (l': Loaded)
    requires i < |lines| && l == LoadLines(lines[..i])
    ensures l' == LoadLines(lines[..i + 1])
  {
    var pre := lines[..i + 1];
    assert pre[..|pre| - 1] == lines[..i] && pre[|pre| - 1] == lines[i];
    l' := AddPair(l, lines[i]);
  }

  // ------------------------------------------------------------ backends

  datatype Attempt<R> = NoClient | Threw | Answered(response: R)

  const CounterRange := 0x1_0000_0000

  /** A tag's backends with the round-robin counter (an unsigned, so it
      wraps at 2^32). */
  class BackendSet {
    const tag: string
    const addresses: seq<string>
    var cnt: nat

    constructor (tag_: string, addresses_: seq<string>)
      ensures tag == tag_ && addresses == addresses_ && cnt == 0
    {
      tag, addresses, cnt := tag_, addresses_, 0;
    }

    /** search_with_retry: attempt k (from 0) asks the backend chosen by the
        counter value at that attempt; `reply(k, address)` is what that
        attempt got. Returns the first answer and the attempts made. */
    method SearchWithRetry<R>(retry: nat, reply: (nat, string) -> Attempt<R>) returns (r: Option<R>, tries: nat)
      requires addresses != [] && cnt < CounterRange
      modifies this
      ensures (r, tries) == RetryFrom(addresses, old(cnt), retry, reply, 0)
      ensures cnt == (old(cnt) + tries) % CounterRange
    {
      ghost var cnt0 := cnt;
      var rr := 0;
      while rr < retry
        invariant 0 <= rr <= retry && cnt < CounterRange
        invariant cnt == (cnt0 + rr) % CounterRange
        invariant RetryFrom(addresses, cnt0, retry, reply, 0) == RetryFrom(addresses, cnt0, retry, reply, rr)
      {
        var c := cnt;
        ModSucc(cnt0, rr, CounterRange);
        cnt := (cnt + 1) % CounterRange;
        var address := addresses[c % |addresses|];
        assert address == AddressAt(addresses, cnt0, rr);
        var a := reply(rr, address);
        RetryStep(addresses, cnt0, retry, reply, rr, a);
        if a.Answered? {
          return Some(a.response), rr + 1;
        }
        rr := rr + 1;
      }
      assert rr == retry;
      return None, retry;
    }
  }

  /** The address used by attempt k when the counter started at cnt0. */
  function AddressAt(addresses: seq<string>, cnt0: nat, k: nat): string
    requires addresses != []
  {
    addresses[((cnt0 + k) % CounterRange) % |addresses|]
  }

  /** The outcome of the attempts k.. of search_with_retry. */
  function RetryFrom<R>(addresses: seq<string>, cnt0: nat, retry: nat, reply: (nat, string) -> Attempt<R>, k: nat): (Option<R>, nat)
    requires addresses != []
    decreases retry - k
  {
    if k >= retry then (None, retry)
    else
      var a := reply(k, AddressAt(addresses, cnt0, k));
      if a.Answered? then (Some(a.response), k + 1) else RetryFrom(addresses, cnt0, retry, reply, k + 1)
  }

  /** One attempt: an answer ends the retries, anything else goes on. */
  lemma RetryStep<R>(addresses: seq<string>, cnt0: nat, retry: nat, reply: (nat, string) -> Attempt<R>, k: nat, a: Attempt<R>)
    requires addresses != [] && k < retry && a == reply(k, AddressAt(addresses, cnt0, k))
    ensures a.Answered? ==> RetryFrom(addresses, cnt0, retry, reply, k) == (Some(a.response), k + 1)
    ensures !a.Answered? ==> RetryFrom(addresses, cnt0, retry, reply, k) == RetryFrom(addresses, cnt0, retry, reply, k + 1)
  {
  }

  /** search_with_retry answers iff some attempt below `retry` answers, and
      then with the first answer; it never makes more than `retry`
      attempts. */
  lemma {:induction false} RetryFirstAnswer<R>(addresses: seq<string>, cnt0: nat, retry: nat, reply: (nat, string) -> Attempt<R>, k: nat)
    requires addresses != [] && k <= retry
    ensures var (r, tries) := RetryFrom(addresses, cnt0, retry, reply, k);
      k <= tries <= retry &&
      (r.None? <==> forall j :: k <= j < retry ==> !reply(j, AddressAt(addresses, cnt0, j)).Answered?) &&
      (r.Some? ==>
        tries > k && reply(tries - 1, AddressAt(addresses, cnt0, tries - 1)) == Answered(r.value) &&
        forall j :: k <= j < tries - 1 ==> !reply(j, AddressAt(addresses, cnt0, j)).Answered?)
    decreases retry - k
  {
    if k < retry {
      var a := reply(k, AddressAt(addresses, cnt0, k));
      if !a.Answered? {
        RetryFirstAnswer(addresses, cnt0, retry, reply, k + 1);
      }
    }
  }

  /** Consecutive attempts visit consecutive backends (mod the count). */
  lemma RoundRobin(addresses: seq<string>, cnt0: nat, k: nat)
    requires addresses != [] && cnt0 + k + 1 < CounterRange
    ensures AddressAt(addresses, cnt0, k) == addresses[(cnt0 + k) % |addresses|]
    ensures AddressAt(addresses, cnt0, k + 1) == addresses[(cnt0 + k + 1) % |addresses|]
  {
    ModOf(cnt0 + k, CounterRange, 0, cnt0 + k);
    ModOf(cnt0 + k + 1, CounterRange, 0, cnt0 + k + 1);
  }

  const DefaultRetry: nat := 3

  /** The proxy service: a retry count and at most one backend set. */
  class ProxyService {
    const retry: nat
    const backends: seq<BackendSet>

    constructor (retry_: nat, backends_: seq<BackendSet>)
      ensures retry == retry_ && backends == backends_
    {
      retry, backends := retry_, backends_;
    }

    /** search: forwards to the first backend set; exhausted retries are a
        ProxyBackendError.  The set must exist (the source indexes
        backends[0]). */
    method Search<R>(reply: (nat, string) -> Attempt<R>) returns (r: Result<R>)
      requires backends != [] && backends[0].addresses != [] && backends[0].cnt < CounterRange
      modifies backends[0]
      ensures var (a, tries) := RetryFrom(backends[0].addresses, old(backends[0].cnt), retry, reply, 0);
        (a.Some? ==> r == Ok(a.value)) && (a.None? ==> r == Err(ProxyBackendError("")))
    {
      var a, _ := backends[0].SearchWithRetry(retry, reply);
      if a.None? { return Err(ProxyBackendError("")); }
      return Ok(a.value);
    }

    function Insert(): (r: Result<()>)
      ensures r == Err(NotImplementedError("insert"))
    {
      Err(NotImplementedError("insert"))
    }

    function Misc(): (r: Result<()>)
      ensures r == Err(NotImplementedError("insert"))
    {
      Err(NotImplementedError("insert"))
    }
  }

  /** The Proxy constructor: load the lines, refuse more than one tag, and
      build one backend set per tag with its sorted addresses. */
  method NewProxy(lines: seq<string>, retry: nat) returns (r: Result<ProxyService>)
    ensures var l := LoadLines(lines);
      (r.Err? <==> |l.dict| > 1) && (r.Err? ==> r.error == NotImplementedError("only support one category"))
    ensures r.Ok? ==> r.value.retry == retry && |r.value.backends| == |LoadLines(lines).dict|
    ensures r.Ok? ==> forall b :: b in r.value.backends ==>
      b.tag in LoadLines(lines).dict && b.addresses == LoadLines(lines).dict[b.tag] &&
      b.addresses != [] && StrictlySorted(b.addresses) && b.cnt == 0
  {
    var l := LoadBackendFile(lines);
    if |l.dict| > 1 {
      return Err(NotImplementedError("only support one category"));
    }
    var backends: seq<BackendSet> := [];
    if |l.dict| == 1 {
      var tag :| tag in l.dict;
      var bs := new BackendSet(tag, l.dict[tag]);
      backends := [bs];
    }
    var p := new ProxyService(retry, backends);
    return Ok(p);
  }
}
