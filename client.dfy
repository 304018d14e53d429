/** The command-line client of src/client.cpp: the split of a
    tab-separated insert line and the choice of request by method name. */
module Client {
  import opened Wrappers
  import opened Strings

  const Tab: char := '\t'

  /** The fields of an InsertRequest taken from one input line. */
  datatype InsertLine = InsertLine(key: string, url: string, meta: string)

  predicate NoTab(s: string) { Absent(s, Tab, 0, |s|) }

  /** The split of an insert line: None is the "Bad line" case. */
  function SplitInsertLine(line: string): (r: Option<InsertLine>)
    ensures r.None? <==>
      NoTab(line) || (line[|line| - 1] == Tab && Absent(line, Tab, 0, |line| - 1))
    ensures r.Some? ==> NoTab(r.value.key) && NoTab(r.value.url)
    ensures r.Some? ==> IsPrefix(r.value.key + [Tab] + r.value.url, line)
    ensures r.Some? && r.value.meta != [] ==>
      line == r.value.key + [Tab] + r.value.url + [Tab] + r.value.meta
  {
    match Find(line, Tab, 0)
    case None => None
    case Some(off) =>
      if off + 1 >= |line| then
        assert off == |line| - 1 && line[|line| - 1] == Tab && Absent(line, Tab, 0, |line| - 1);
        None
      else
        var off2 := match Find(line, Tab, off + 1) case None => |line| case Some(k) => k;
        var key := line[..off];
        var url := line[off + 1..off2];
        var meta := if off2 + 1 < |line| then line[off2 + 1..] else [];
        assert !NoTab(line) && !Absent(line, Tab, 0, |line| - 1) by { assert line[off] == Tab && off < |line| - 1; }
        assert NoTab(key) by { forall i | 0 <= i < |key| ensures key[i] != Tab { assert key[i] == line[i]; } }
        assert NoTab(url) by { forall i | 0 <= i < |url| ensures url[i] != Tab { assert url[i] == line[off + 1 + i]; } }
        assert line[..off2] == key + [Tab] + url;
        assert meta != [] ==> line == line[..off2] + [Tab] + meta;
        Some(InsertLine(key, url, meta))
  }

  /** How a well-formed insert line is written: key TAB url, then TAB meta
      when there is meta. */
  function JoinInsertLine(l: InsertLine): string {
    l.key + [Tab] + l.url + (if l.meta == [] then [] else [Tab] + l.meta)
  }

  /** Splitting recovers every line written by JoinInsertLine whose key and
      url hold no tab and which has a url or a meta; the meta may hold tabs. */
  lemma SplitJoin(l: InsertLine)
    requires NoTab(l.key) && NoTab(l.url) && (l.url != [] || l.meta != [])
    ensures SplitInsertLine(JoinInsertLine(l)) == Some(l)
  {
    var line := JoinInsertLine(l);
    var head := l.key + [Tab] + l.url;
    var off := |l.key|;
    var off2 := off + 1 + |l.url|;
    assert line[..off2] == head;
    assert head[..off] == l.key && head[off + 1..] == l.url;
    assert line[..off] == l.key;
    assert line[off + 1..off2] == l.url;
    assert line[off] == Tab;
    FindFirst(line, Tab, 0, off);
    if l.meta == [] {
      assert line == head;
      FindAbsent(line, Tab, off + 1);
    } else {
      assert line == head + [Tab] + l.meta;
      assert line[off2] == Tab;
      FindFirst(line, Tab, off + 1, off2);
      assert line[off2 + 1..] == l.meta;
    }
  }

  /** A trailing tab after the url is dropped: the meta is then "". */
  lemma TrailingTabDropsMeta(key: string, url: string)
    requires NoTab(key) && NoTab(url) && url != []
    ensures SplitInsertLine(key + [Tab] + url + [Tab]) == Some(InsertLine(key, url, []))
  {
    var line := key + [Tab] + url + [Tab];
    var off := |key|;
    var off2 := off + 1 + |url|;
    assert line[..off] == key;
    assert line[off + 1..off2] == url;
    assert line[off] == Tab && line[off2] == Tab;
    FindFirst(line, Tab, 0, off);
    FindFirst(line, Tab, off + 1, off2);
  }

  /** The request the client sends for a method name. */
  datatype Command = Ping | InsertFromLines | SearchFromPairs | Misc(name: string)

  function CommandFor(name: string): (r: Command)
    ensures r.Misc? <==> name != "ping" && name != "insert" && name != "search"
    ensures r.Misc? ==> r.name == name
    ensures r == Ping <==> name == "ping"
    ensures r == InsertFromLines <==> name == "insert"
    ensures r == SearchFromPairs <==> name == "search"
  {
    if name == "ping" then Ping
    else if name == "insert" then InsertFromLines
    else if name == "search" then SearchFromPairs
    else Misc(name)
  }
}
