/** The link crawler of the alternate (commented-out) implementation in
    `enumeration.py`: a recursive fetch from a seed URL that extracts the
    `href` targets of each page and follows each one it has not visited. */
module Crawler {
  import opened Probes

  /** A character that `[^'" >]` accepts. */
  predicate LinkChar(c: char)
  {
    c != '\'' && c != '"' && c != ' ' && c != '>'
  }

  predicate IsQuote(c: char)
  {
    c == '\'' || c == '"'
  }

  /** The length of the longest run of link characters from `start`. */
  function LinkRun(text: string, start: nat): (n: nat)
    requires start <= |text|
    ensures start + n <= |text|
    ensures start + n == |text| || !LinkChar(text[start + n])
    decreases |text| - start
  {
    if start < |text| && LinkChar(text[start]) then 1 + LinkRun(text, start + 1) else 0
  }

  /** Every character of the run is a link character, so the run is maximal. */
  lemma {:induction false} LinkRunChars(text: string, start: nat)
    requires start <= |text|
    ensures forall k :: start <= k < start + LinkRun(text, start) ==> LinkChar(text[k])
    decreases |text| - start
  {
    if start < |text| && LinkChar(text[start]) {
      LinkRunChars(text, start + 1);
    }
  }

  /** The text has `href=` at `i`. */
  predicate HrefAt(text: string, i: nat)
  {
    && i + 5 <= |text|
    && text[i] == 'h' && text[i + 1] == 'r' && text[i + 2] == 'e' && text[i + 3] == 'f' && text[i + 4] == '='
  }

  /** Where the captured group of `href=['"]?([^'" >]+)` starts when the
      pattern matches at `i`, or `i` itself when it does not. The optional
      quote is taken when a link character follows it; otherwise the group
      would have to start at a quote or after `href=` at a character it
      rejects, and the match fails. */
  function GroupStart(text: string, i: nat): (start: nat)
    requires i <= |text|
    ensures start == i || (i + 5 <= start <= i + 6 && start < |text| && LinkChar(text[start]))
    ensures start != i <==>
              && HrefAt(text, i)
              && ((i + 5 < |text| && LinkChar(text[i + 5]))
                  || (i + 6 < |text| && IsQuote(text[i + 5]) && LinkChar(text[i + 6])))
    ensures start == i + 6 ==> IsQuote(text[i + 5])
  {
    if HrefAt(text, i) then
      var j := i + 5;
      if j + 1 < |text| && IsQuote(text[j]) && LinkChar(text[j + 1]) then j + 1
      else if j < |text| && LinkChar(text[j]) then j
      else i
    else i
  }

  /** A non-empty run of link characters: a link that `re.findall` can return. */
  predicate IsLink(s: string)
  {
    s != [] && forall c :: 0 <= c < |s| ==> LinkChar(s[c])
  }

  /** `re.findall(r'href=[\'"]?([^\'" >]+)', text)`: the pattern is tried at
      each position from the left; after a match the search resumes where the
      match ended, otherwise one position further on. */
  function Hrefs(text: string): (links: seq<string>)
    ensures forall k :: 0 <= k < |links| ==> IsLink(links[k])
    decreases |text|
  {
    if text == [] then []
    else
      var start := GroupStart(text, 0);
      if start == 0 then Hrefs(text[1..])
      else
        var end := start + LinkRun(text, start);
        LinkRunChars(text, start);
        [text[start..end]] + Hrefs(text[end..])
  }

  /** A run of link characters from `k` to `e`, ended by the end of the text
      or by a character the run rejects, is the whole link run from `k`. */
  lemma {:induction false} RunUntil(t: string, k: nat, e: nat)
    requires k <= e <= |t|
    requires forall c :: k <= c < e ==> LinkChar(t[c])
    requires e == |t| || !LinkChar(t[e])
    ensures LinkRun(t, k) == e - k
    decreases e - k
  {
    if k < e {
      RunUntil(t, k + 1, e);
    }
  }

  /** A match at the start of the text contributes its group, and the search
      resumes where the match ended. */
  lemma MatchAtStart(t: string, start: nat, end: nat)
    requires t != [] && GroupStart(t, 0) == start != 0
    requires end == start + LinkRun(t, start)
    ensures Hrefs(t) == [t[start..end]] + Hrefs(t[end..])
  {
  }

  /** `href=` followed by no quote, a single quote or a double quote and a
      non-empty run of link characters yields exactly that run. */
  lemma HrefsOne(q: string, s: string)
    requires q == "" || q == "'" || q == "\""
    requires IsLink(s)
    ensures Hrefs("href=" + q + s) == [s]
  {
    var t := "href=" + q + s;
    var start := 5 + |q|;
    assert HrefAt(t, 0);
    forall c | start <= c < |t|
      ensures LinkChar(t[c])
    {
      assert t[c] == s[c - start];
    }
    if q != "" {
      assert IsQuote(t[5]);
    }
    assert GroupStart(t, 0) == start;
    RunUntil(t, start, |t|);
    assert t[start..|t|] == s;
    assert t[|t|..] == [];
    MatchAtStart(t, start, |t|);
  }

  /** An unquoted link closed by `>` yields exactly that link. */
  lemma HrefsClosed(s: string)
    requires IsLink(s)
    ensures Hrefs("href=" + s + ">") == [s]
  {
    var t := "href=" + s + ">";
    var end := 5 + |s|;
    assert GroupStart(t, 0) == 5 by {
      assert HrefAt(t, 0);
      assert t[5] == s[0];
    }
    assert LinkRun(t, 5) == |s| by {
      forall c | 5 <= c < end
        ensures LinkChar(t[c])
      {
        assert t[c] == s[c - 5];
      }
      RunUntil(t, 5, end);
    }
    assert t[5..end] == s;
    assert t[end..] == ">";
    MatchAtStart(t, 5, end);
    assert Hrefs(">") == Hrefs([]);
  }

  /** `>` and space end a tag or an attribute; no match runs across them. */
  predicate Separator(c: char)
  {
    c == '>' || c == ' '
  }

  /** A link run that starts inside `a`, which ends with a separator, stops
      inside `a`, whatever follows. */
  lemma {:induction false} LinkRunInside(a: string, b: string, k: nat)
    requires k < |a| && Separator(a[|a| - 1])
    ensures LinkRun(a + b, k) == LinkRun(a, k)
    decreases |a| - k
  {
    assert (a + b)[k] == a[k];
    if LinkChar(a[k]) {
      LinkRunInside(a, b, k + 1);
    }
  }

  /** Whether the pattern matches at the start of `a`, and where its group
      starts, does not depend on what follows `a` when `a` ends with a
      separator: neither `href=` nor a quote and its link character can
      straddle it. */
  lemma GroupStartInside(a: string, b: string)
    requires a != [] && Separator(a[|a| - 1])
    ensures GroupStart(a + b, 0) == GroupStart(a, 0)
  {
    var t := a + b;
    assert t[|a| - 1] == a[|a| - 1];
    if HrefAt(t, 0) {
      assert 5 < |a|;
      assert t[5] == a[5];
      if IsQuote(t[5]) {
        assert 6 < |a| && t[6] == a[6];
      }
    }
  }

  /** `re.findall` over a page is the matches of each part in turn, when the
      first part is empty or ends with `>` or a space, so that no match
      straddles the two. */
  lemma {:induction false} HrefsAppend(a: string, b: string)
    requires a == [] || Separator(a[|a| - 1])
    ensures Hrefs(a + b) == Hrefs(a) + Hrefs(b)
    decreases |a|, 1
  {
    if a == [] {
      assert a + b == b;
    } else {
      GroupStartInside(a, b);
      var start := GroupStart(a, 0);
      if start == 0 {
        var t := a + b;
        assert t[1..] == a[1..] + b;
        HrefsAppend(a[1..], b);
        assert Hrefs(t) == Hrefs(t[1..]);
        assert Hrefs(a) == Hrefs(a[1..]);
      } else {
        AppendMatch(a, b, start);
      }
    }
  }

  /** `HrefsAppend` when the pattern matches at the start of `a`. */
  lemma {:induction false} AppendMatch(a: string, b: string, start: nat)
    requires a != [] && Separator(a[|a| - 1])
    requires GroupStart(a + b, 0) == GroupStart(a, 0) == start != 0
    ensures Hrefs(a + b) == Hrefs(a) + Hrefs(b)
    decreases |a|, 0
  {
    var t := a + b;
    var end := start + LinkRun(a, start);
    var link := a[start..end];
    var rest, tail := Hrefs(a[end..]), Hrefs(b);
    assert Hrefs(a) == [link] + rest by {
      MatchAtStart(a, start, end);
    }
    assert Hrefs(t) == [link] + (rest + tail) by {
      LinkRunInside(a, b, start);
      assert t[start..end] == link;
      assert t[end..] == a[end..] + b;
      HrefsAppend(a[end..], b);
      MatchAtStart(t, start, end);
    }
    assert [link] + (rest + tail) == ([link] + rest) + tail;
  }

  /** A page of tags `href=link>`, one per link. */
  function Tags(links: seq<string>): string
  {
    if links == [] then "" else "href=" + links[0] + ">" + Tags(links[1..])
  }

  /** Every link of a page of tags is found, in order, and nothing else. */
  lemma {:induction false} HrefsTags(links: seq<string>)
    requires forall k :: 0 <= k < |links| ==> IsLink(links[k])
    ensures Hrefs(Tags(links)) == links
  {
    if links != [] {
      var a := "href=" + links[0] + ">";
      HrefsClosed(links[0]);
      HrefsAppend(a, Tags(links[1..]));
      HrefsTags(links[1..]);
      assert Tags(links) == a + Tags(links[1..]);
    }
  }

  /** Both links of a two-link page are found. */
  lemma HrefsTwoLinks()
    ensures Hrefs("href=a>href=b") == ["a", "b"]
  {
    var a := "href=a>";
    var b := "href=b";
    assert a + b == "href=a>href=b";
    assert a == "href=" + "a" + ">";
    assert b == "href=" + "" + "b";
    assert IsLink("a") && IsLink("b");
    HrefsClosed("a");
    HrefsOne("", "b");
    HrefsAppend(a, b);
  }

  /** A page holding a single quoted anchor yields its target. */
  lemma HrefsExample()
    ensures Hrefs("<a href='/b'>") == ["/b"]
  {
    var a := "<a ";
    var tag := "href='/b'>";
    assert a + tag == "<a href='/b'>";
    assert a[1..] == "a " && a[2..] == " " && a[3..] == [];
    assert Hrefs(a) == [];
    assert HrefAt(tag, 0);
    assert GroupStart(tag, 0) == 6;
    assert LinkRun(tag, 6) == 2;
    assert tag[6..8] == "/b";
    var close := tag[8..];
    assert close == "'>" && close[1..] == ">";
    assert Hrefs(">") == [] by {
      assert Hrefs(">") == Hrefs([]);
    }
    assert Hrefs(close) == [];
    MatchAtStart(tag, 6, 8);
    HrefsAppend(a, tag);
  }

  /** What the unbounded `requests.get(url)` of the crawler gives: the body of
      a response (whatever its status), or a `RequestException`. */
  datatype Fetched = Page(text: string) | FetchFailed

  class WebCrawler {
    /** The seed URL. */
    const target: string
    /** The network, as the crawler sees it. */
    const get: string -> Fetched
    /** `urllib.parse.urljoin(base, link)`. */
    const join: (string, string) -> string
    /** The URLs that answer a request; the crawl terminates because there are finitely many. */
    ghost const site: set<string>

    var visited: set<string>
    /** Every URL requested so far, in order. */
    ghost var fetches: seq<string>

    /** The URLs of `fs` whose request was answered. */
    ghost function Answered(fs: seq<string>): set<string>
    {
      set i | 0 <= i < |fs| && get(fs[i]).Page? :: fs[i]
    }

    /** No URL is requested again once a request for it has been answered. */
    ghost predicate NoRefetch(fs: seq<string>)
    {
      forall i, j :: 0 <= i < j < |fs| && get(fs[i]).Page? ==> fs[j] != fs[i]
    }

    /** A link target is dealt with once it is visited or its request fails. */
    ghost predicate Handled(v: string, vs: set<string>)
    {
      v in vs || get(v).FetchFailed?
    }

    /** Every link target of page `u` is dealt with. */
    ghost predicate LinksHandled(u: string, vs: set<string>)
    {
      get(u).Page? ==>
        forall k :: 0 <= k < |Hrefs(get(u).text)| ==> Handled(join(u, Hrefs(get(u).text)[k]), vs)
    }

    ghost predicate Valid()
      reads this
    {
      && (forall u :: get(u).Page? ==> u in site)
      && visited == Answered(fetches)
      && NoRefetch(fetches)
    }

    constructor(target: string, get: string -> Fetched, join: (string, string) -> string, ghost site: set<string>)
      requires forall u :: get(u).Page? ==> u in site
      ensures Valid()
      ensures this.target == target && this.get == get && this.join == join && this.site == site
      ensures visited == {} && fetches == []
    {
      this.target := target;
      this.get := get;
      this.join := join;
      this.site := site;
      visited := {};
      fetches := [];
    }

    lemma AnsweredAppend(fs: seq<string>, u: string)
      ensures Answered(fs + [u]) == Answered(fs) + (if get(u).Page? then {u} else {})
    {
      var fs' := fs + [u];
      forall v | v in Answered(fs')
        ensures v in Answered(fs) + (if get(u).Page? then {u} else {})
      {
        var i :| 0 <= i < |fs'| && get(fs'[i]).Page? && fs'[i] == v;
        if i < |fs| {
          assert fs[i] == v;
        }
      }
      forall v | v in Answered(fs)
        ensures v in Answered(fs')
      {
        var i :| 0 <= i < |fs| && get(fs[i]).Page? && fs[i] == v;
        assert fs'[i] == v;
      }
      if get(u).Page? {
        assert fs'[|fs|] == u;
      }
    }

    lemma LinksHandledGrows(u: string, vs: set<string>, ws: set<string>)
      requires LinksHandled(u, vs) && vs <= ws
      ensures LinksHandled(u, ws)
    {
    }

    /** `_crawl(url)`: a visited URL is left alone; otherwise it is requested,
        and when answered it is added to `visited` and each link target of the
        page is crawled in turn. */
    method Crawl(url: string)
      requires Valid()
      modifies this
      ensures Valid()
      ensures old(visited) <= visited
      ensures url in visited <==> url in old(visited) || get(url).Page?
      ensures old(fetches) <= fetches
      ensures url in old(visited) ==> visited == old(visited) && fetches == old(fetches)
      ensures forall u :: u in visited - old(visited) ==> LinksHandled(u, visited)
      decreases site - visited
    {
      if url in visited {
        return;
      }
      AnsweredAppend(fetches, url);
      fetches := fetches + [url];
      var response := get(url);
      if response.FetchFailed? {
        return;
      }
      visited := visited + {url};
      var links := Hrefs(response.text);
      var i := 0;
      while i < |links|
        invariant 0 <= i <= |links|
        invariant Valid()
        invariant old(visited) + {url} <= visited
        invariant old(fetches) <= fetches
        invariant forall u :: u in visited - old(visited) - {url} ==> LinksHandled(u, visited)
        invariant forall k :: 0 <= k < i ==> Handled(join(url, links[k]), visited)
      {
        ghost var before := visited;
        Crawl(join(url, links[i]));
        forall u | u in before - old(visited) - {url}
          ensures LinksHandled(u, visited)
        {
          LinksHandledGrows(u, before, visited);
        }
        i := i + 1;
      }
    }

    /** `enumerate()`: crawl from the seed and return the visited set. */
    method Enumerate() returns (urls: set<string>)
      requires Valid()
      modifies this
      ensures Valid() && urls == visited
      ensures target in urls <==> target in old(visited) || get(target).Page?
      ensures forall u :: u in urls ==> get(u).Page?
      ensures forall u :: u in urls - old(visited) ==> LinksHandled(u, urls)
    {
      Crawl(target);
      urls := visited;
    }
  }
}
