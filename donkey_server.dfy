/** The configuration and request helpers of src/donkey.cpp: `-D key=value`
    overrides, the URL-scheme test, the index defaults check, the
    extractor's temporary-file model, the object-source dispatch of
    Server::loadObject and the host:port split of NetworkAddress. */
module DonkeyServer {
  import opened Wrappers
  import opened Strings
  import opened Floats

  /** A property tree addressed by dotted paths; `put` replaces the value at
      a path. */
  class Config {
    var values: map<string, string>

    constructor (initial: map<string, string>)
      ensures values == initial
    {
      values := initial;
    }

    method Put(path: string, value: string)
      modifies this
      ensures values == old(values)[path := value]
    {
      values := values[path := value];
    }
  }

  /** The split of one override at its first '='; None is a bad parameter:
      no '=', '=' first, or nothing after it. */
  function ParseOverride(d: string): (r: Option<(string, string)>)
    ensures r.Some? ==> d == r.value.0 + "=" + r.value.1
    ensures r.Some? ==> r.value.0 != [] && r.value.1 != [] && Absent(r.value.0, '=', 0, |r.value.0|)
    ensures r.None? <==> Absent(d, '=', 0, |d|) || d[0] == '=' || (d[|d| - 1] == '=' && Absent(d, '=', 0, |d| - 1))
  {
    match Find(d, '=', 0)
    case None => None
    case Some(o) =>
      if o == 0 || o + 1 >= |d| then None
      else
        assert d == d[..o] + "=" + d[o + 1..];
        Some((d[..o], d[o + 1..]))
  }

  /** The configuration after putting every override in order. */
  function ApplyOverrides(c: map<string, string>, ds: seq<string>): map<string, string>
    requires forall i :: 0 <= i < |ds| ==> ParseOverride(ds[i]).Some?
  {
    if ds == [] then c
    else
      var kv := ParseOverride(ds[|ds| - 1]).value;
      ApplyOverrides(c, ds[..|ds| - 1])[kv.0 := kv.1]
  }

  predicate AllParse(ds: seq<string>) {
    forall i :: 0 <= i < |ds| ==> ParseOverride(ds[i]).Some?
  }

  /** OverrideConfig: false is the abort on the first bad parameter; the
      overrides before it have then been put. */
  method OverrideConfig(overrides: seq<string>, config: Config) returns (ok: bool)
    modifies config
    ensures ok <==> AllParse(overrides)
    ensures ok ==> config.values == ApplyOverrides(old(config.values), overrides)
    ensures !ok ==> exists n :: (0 <= n < |overrides| && AllParse(overrides[..n]) &&
      ParseOverride(overrides[n]).None? &&
      config.values == ApplyOverrides(old(config.values), overrides[..n]))
  {
    var i := 0;
    while i < |overrides|
      invariant 0 <= i <= |overrides|
      invariant AllParse(overrides[..i])
      invariant config.values == ApplyOverrides(old(config.values), overrides[..i])
    {
      var kv := ParseOverride(overrides[i]);
      if kv.None? {
        assert ParseOverride(overrides[i]).None? && AllParse(overrides[..i]);
        return false;
      }
      config.Put(kv.value.0, kv.value.1);
      assert overrides[..i + 1][..i] == overrides[..i];
      i := i + 1;
    }
    assert overrides[..i] == overrides;
    return true;
  }

  function KeyOf(d: string): string
    requires ParseOverride(d).Some?
  {
    ParseOverride(d).value.0
  }

  lemma AllParseSplit(a: seq<string>, b: seq<string>)
    requires AllParse(a + b)
    ensures AllParse(a) && AllParse(b)
  {
    forall i | 0 <= i < |a| ensures ParseOverride(a[i]).Some? {
      assert a[i] == (a + b)[i];
    }
    forall i | 0 <= i < |b| ensures ParseOverride(b[i]).Some? {
      assert b[i] == (a + b)[|a| + i];
    }
  }

  /** Putting a + b is putting a, then b. */
  lemma {:induction false} ApplyConcat(c: map<string, string>, a: seq<string>, b: seq<string>)
    requires AllParse(a + b)
    ensures AllParse(a) && AllParse(b)
    ensures ApplyOverrides(c, a + b) == ApplyOverrides(ApplyOverrides(c, a), b)
  {
    AllParseSplit(a, b);
    if b == [] {
      assert a + b == a;
    } else {
      var b0 := b[..|b| - 1];
      assert (a + b)[..|a + b| - 1] == a + b0;
      assert (a + b)[|a + b| - 1] == b[|b| - 1];
      ApplyConcat(c, a, b0);
    }
  }

  /** A key no override names keeps its old value (or stays absent). */
  lemma {:induction false} UntouchedKey(c: map<string, string>, ds: seq<string>, key: string)
    requires AllParse(ds)
    requires forall i :: 0 <= i < |ds| ==> KeyOf(ds[i]) != key
    ensures key in ApplyOverrides(c, ds) <==> key in c
    ensures key in c ==> ApplyOverrides(c, ds)[key] == c[key]
  {
    if ds != [] {
      var init := ds[..|ds| - 1];
      AllParseSplit(init, [ds[|ds| - 1]]);
      assert init + [ds[|ds| - 1]] == ds;
      forall i | 0 <= i < |init| ensures KeyOf(init[i]) != key {
        assert init[i] == ds[i];
      }
      UntouchedKey(c, init, key);
    }
  }

  /** Later entries overwrite earlier ones: the last override naming a key
      decides its value. */
  lemma LastOverrideWins(c: map<string, string>, pre: seq<string>, d: string, post: seq<string>)
    requires AllParse(pre + [d] + post) && ParseOverride(d).Some?
    requires forall i :: 0 <= i < |post| ==> ParseOverride(post[i]).Some? && KeyOf(post[i]) != KeyOf(d)
    ensures KeyOf(d) in ApplyOverrides(c, pre + [d] + post)
    ensures ApplyOverrides(c, pre + [d] + post)[KeyOf(d)] == ParseOverride(d).value.1
  {
    ApplyConcat(c, pre + [d], post);
    AllParseSplit(pre, [d]);
    assert [d][0] == d;
    var mid := ApplyOverrides(c, pre + [d]);
    assert (pre + [d])[..|pre + [d]| - 1] == pre;
    assert mid == ApplyOverrides(c, pre)[KeyOf(d) := ParseOverride(d).value.1];
    UntouchedKey(mid, post, KeyOf(d));
  }

  // ------------------------------------------------------------- test_url

  /** std::string::compare(pos, len, lit) == 0: the substring of at most
      len characters at pos equals lit. */
  predicate CompareEq(s: string, pos: nat, len: nat, lit: string)
    requires pos <= |s|
  {
    s[pos..if pos + len <= |s| then pos + len else |s|] == lit
  }

  function TestUrl(url: string): (r: bool)
    ensures r <==> IsPrefix("http://", url) || IsPrefix("https://", url) || IsPrefix("ftp://", url)
  {
    CompareEq(url, 0, 7, "http://") || CompareEq(url, 0, 8, "https://") || CompareEq(url, 0, 6, "ftp://")
  }

  // ---------------------------------------------------------- Index::Index

  /** ptree get<int>(path, default): the value when present and readable as
      an int, else the default. */
  function GetInt(c: map<string, string>, path: string, def: int): (r: int)
    ensures path !in c ==> r == def
    ensures path in c && ParseInt(c[path]).Ok? ==> r == ParseInt(c[path]).value
  {
    if path in c then
      match ParseInt(c[path]) case Ok(v) => v case Err(_) => def
    else def
  }

  const HintKPath := "donkey.defaults.hint_K"

  /** The defaults every index keeps: K from the configuration (default 1)
      and R, the configured hint_R or the build's default_hint_R. */
  datatype Defaults = Defaults(k: int, r: FloatValue)

  function IndexDefaults(c: map<string, string>, hintR: FloatValue): (res: Result<Defaults>)
    ensures res.Ok? <==> GetInt(c, HintKPath, 1) > 0 && IsNormal(hintR)
    ensures res.Ok? ==> res.value == Defaults(GetInt(c, HintKPath, 1), hintR)
    ensures res.Err? ==> res.error.ConfigError?
  {
    var k := GetInt(c, HintKPath, 1);
    if k <= 0 then Err(ConfigError("invalid defaults.hint_K"))
    else if !IsNormal(hintR) then Err(ConfigError("invalid defaults.hint_R"))
    else Ok(Defaults(k, hintR))
  }

  /** With no configured hint_K the default of 1 is accepted, and a zero
      hint_R is refused. */
  lemma DefaultsExamples(hintR: FloatValue)
    requires IsNormal(hintR)
    ensures IndexDefaults(map[], hintR) == Ok(Defaults(1, hintR))
    ensures IndexDefaults(map[], Finite(0.0)).Err?
  {
  }

  // -------------------------------------------------------- ExtractorBase

  const DefaultModel := "%%%%-%%%%-%%%%-%%%%"

  /** The temporary-file model: the directory with a '/' appended when it
      lacks one, then DefaultModel.  The directory must be non-empty
      (`back()` of an empty string). */
  function TmpModel(dir: string): (r: string)
    requires dir != []
    ensures IsPrefix(dir, r)
    ensures |r| > |DefaultModel| && r[|r| - |DefaultModel| - 1..] == "/" + DefaultModel
    ensures |r| == |dir| + |DefaultModel| + (if dir[|dir| - 1] == '/' then 0 else 1)
  {
    var d := if dir[|dir| - 1] == '/' then dir else dir + "/";
    assert d[|d| - 1] == '/';
    d + DefaultModel
  }

  /** A directory with and without its trailing '/' give the same model. */
  lemma TmpModelSlash(dir: string)
    requires dir != [] && dir[|dir| - 1] != '/'
    ensures TmpModel(dir + "/") == TmpModel(dir)
  {
  }

  function ExtractorTmpModel(c: map<string, string>): string
    requires "donkey.tmp_dir" in c ==> c["donkey.tmp_dir"] != []
  {
    TmpModel(if "donkey.tmp_dir" in c then c["donkey.tmp_dir"] else ".")
  }

  lemma DefaultTmpModel()
    ensures ExtractorTmpModel(map[]) == "./%%%%-%%%%-%%%%-%%%%"
  {
  }

  // ------------------------------------------------------ Server::loadObject

  datatype ObjectRequest = ObjectRequest(raw: bool, url: string, content: string, kind: string)

  /** What loadObject does with a request.  Extract* run the extractor on
      the raw material; Read* deserialise an object. */
  datatype LoadAction =
    | ExtractContent(content: string, kind: string)
    | ExtractUrl(url: string, kind: string)
    | ExtractPath(path: string, kind: string)
    | ReadContent(content: string)
    | DownloadAndRead(url: string)
    | ReadLocalFile(path: string)

  /** loadObject, with `downloadOk` standing for the exit status of wget
      (used only by the two actions that download). */
  function LoadObject(req: ObjectRequest, downloadOk: bool): (r: Result<LoadAction>)
    ensures req.url != [] && req.content != [] ==> r == Err(RequestError("both url and content set"))
    ensures r.Ok? && r.value.ExtractContent? ==> req.raw && r.value.content == req.content
    ensures r.Ok? && (r.value.ExtractUrl? || r.value.DownloadAndRead?) ==>
      TestUrl(req.url) && req.content == [] && downloadOk && r.value.url == req.url
    ensures r.Ok? && r.value.ExtractPath? ==> req.raw && !TestUrl(req.url) && r.value.path == req.url
    ensures r.Ok? && r.value.ReadLocalFile? ==> !req.raw && !TestUrl(req.url) && r.value.path == req.url
    ensures r.Ok? && (r.value.ExtractContent? || r.value.ExtractUrl? || r.value.ExtractPath?) <==> r.Ok? && req.raw
    ensures r.Err? && !(req.url != [] && req.content != []) ==>
      r == Err(ExternalError(req.url)) && !downloadOk && TestUrl(req.url) && req.content == []
    // one clause per arm of the dispatch
    ensures req.raw && req.url == [] && req.content != [] ==> r == Ok(ExtractContent(req.content, req.kind))
    ensures !req.raw && req.url == [] && req.content != [] ==> r == Ok(ReadContent(req.content))
    ensures req.content == [] && TestUrl(req.url) && !downloadOk ==> r == Err(ExternalError(req.url))
    ensures req.raw && req.content == [] && TestUrl(req.url) && downloadOk ==> r == Ok(ExtractUrl(req.url, req.kind))
    ensures !req.raw && req.content == [] && TestUrl(req.url) && downloadOk ==> r == Ok(DownloadAndRead(req.url))
    ensures req.raw && req.content == [] && !TestUrl(req.url) ==> r == Ok(ExtractPath(req.url, req.kind))
    ensures !req.raw && req.content == [] && !TestUrl(req.url) ==> r == Ok(ReadLocalFile(req.url))
  {
    if req.url != [] && req.content != [] then Err(RequestError("both url and content set"))
    else
      var isUrl := req.url != [] && TestUrl(req.url);
      if req.raw then
        if req.content != [] then Ok(ExtractContent(req.content, req.kind))
        else if isUrl then (if downloadOk then Ok(ExtractUrl(req.url, req.kind)) else Err(ExternalError(req.url)))
        else Ok(ExtractPath(req.url, req.kind))
      else
        if req.content != [] then Ok(ReadContent(req.content))
        else if isUrl then (if downloadOk then Ok(DownloadAndRead(req.url)) else Err(ExternalError(req.url)))
        else Ok(ReadLocalFile(req.url))
  }

  /** A request with content and no url is always served from the content. */
  lemma ContentWins(req: ObjectRequest, downloadOk: bool)
    requires req.content != [] && req.url == []
    ensures LoadObject(req, downloadOk) ==
      Ok(if req.raw then ExtractContent(req.content, req.kind) else ReadContent(req.content))
  {
  }

  // ------------------------------------------------------- NetworkAddress

  /** NetworkAddress: host and port; port -1 when the text has no ':' or
      ends in its first ':'; a port that is not an int is an error. */
  function SplitAddress(server: string): (r: Result<(string, int)>)
    ensures Absent(server, ':', 0, |server|) ==> r == Ok((server, -1))
    ensures r.Ok? && r.value.1 != -1 ==>
      IsPrefix(r.value.0 + ":", server) && Absent(r.value.0, ':', 0, |r.value.0|)
    ensures forall off :: 0 <= off < |server| && server[off] == ':' && Absent(server, ':', 0, off) ==>
      (off + 1 == |server| ==> r == Ok((server, -1))) &&
      (off + 1 < |server| ==>
         (r.Err? <==> ParseInt(server[off + 1..]).Err?) &&
         (r.Ok? ==> r.value == (server[..off], ParseInt(server[off + 1..]).value)))
  {
    FindFirstAll(server, ':');
    match Find(server, ':', 0)
    case None => Ok((server, -1))
    case Some(off) => SplitAt(server, off)
  }

  /** The split at the first ':', at off. */
  function SplitAt(server: string, off: nat): (r: Result<(string, int)>)
    requires off < |server| && server[off] == ':' && Absent(server, ':', 0, off)
    ensures off + 1 == |server| ==> r == Ok((server, -1))
    ensures off + 1 < |server| ==> (r.Err? <==> ParseInt(server[off + 1..]).Err?)
    ensures off + 1 < |server| && r.Ok? ==> r.value == (server[..off], ParseInt(server[off + 1..]).value)
    ensures off + 1 < |server| && r.Ok? ==>
      IsPrefix(r.value.0 + ":", server) && Absent(r.value.0, ':', 0, |r.value.0|)
  {
    if off + 1 >= |server| then Ok((server, -1))
    else
      match ParseInt(server[off + 1..])
      case Err(e) => Err(e)
      case Ok(p) =>
        assert server[..off + 1] == server[..off] + ":";
        Ok((server[..off], p))
  }

  /** host ":" port splits back into host and port. */
  lemma SplitAddressRoundTrip(host: string, port: int)
    requires Absent(host, ':', 0, |host|) && InInt32(port)
    ensures SplitAddress(host + ":" + IntToDecimal(port)) == Ok((host, port))
  {
    var s := host + ":" + IntToDecimal(port);
    FindFirst(s, ':', 0, |host|);
    assert s[..|host|] == host;
    assert s[|host| + 1..] == IntToDecimal(port);
    ParseIntRoundTrip(port);
  }
}
