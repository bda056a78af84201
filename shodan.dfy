/** The Shodan transforms of lib/transforms/shodan/index.js: the search
    queries, the SSL hostname matcher, the node specs made from a search
    match, and the paging loop of `handle`, with the HTTP responses given as
    a sequence (response `k` answers page `k + 1`). */
module Shodan {
  import opened Base
  import opened Text
  import opened Graph
  import opened Orchestration
  import opened Types

  /** The parts of a Shodan search match that `handle` reads. Absent strings
      are `None`. */
  datatype Cert = Cert(subjectCN: Option<string>, extensions: seq<Option<string>>)
  datatype Ssl = Ssl(cert: Option<Cert>)
  datatype Match = Match(ip: string, port: int, ssl: Option<Ssl>, hostnames: seq<string>)

  /** One page of search results, after `JSON.parse`. */
  datatype Response = Response(matches: seq<Match>, total: Option<int>)

  /** One search request: API key, query and page number. */
  datatype Request = Request(key: string, query: string, page: nat)

  // ---------------------------------------------------------------- queries

  function Quoted(filter: string, text: string, extraQuery: Option<string>): (q: string)
    ensures StartsWith(q, filter + ":\"" + text + "\" ")
    ensures extraQuery.None? ==> q == filter + ":\"" + text + "\" "
  {
    filter + ":\"" + text + "\" " + (if extraQuery.Some? then extraQuery.value else "")
  }

  /** `getQuery` of the ORG search (lib/transforms/shodan/index.js:127-129). */
  function OrgQuery(text: string, extraQuery: Option<string>): string
  {
    Quoted("org", text, extraQuery)
  }

  /** `getQuery` of the SSL search (lib/transforms/shodan/index.js:179-181). */
  function SslQuery(text: string, extraQuery: Option<string>): string
  {
    Quoted("ssl", text, extraQuery)
  }

  // ---------------------------------------------------------------- the SSL matcher

  /** The characters the label escapes before it goes into a regular
      expression (lib/transforms/shodan/index.js:188). */
  predicate IsMeta(c: char)
  {
    c in ".*+?^${}()|[]\\"
  }

  /** Every meta character prefixed by a backslash. */
  function Escape(s: string): (r: string)
    ensures |r| >= |s|
    ensures (forall i :: 0 <= i < |s| ==> !IsMeta(s[i])) ==> r == s
  {
    if |s| == 0 then ""
    else (if IsMeta(s[0]) then ['\\', s[0]] else [s[0]]) + Escape(s[1..])
  }

  /** What a pattern made of literal atoms only matches: plain characters
      stand for themselves and `\` followed by a meta character for that
      character; any other pattern is not a literal. */
  function Literal(p: string): Option<string>
    decreases |p|
  {
    if |p| == 0 then Some("")
    else if p[0] == '\\' then
      if |p| >= 2 && IsMeta(p[1]) then
        match Literal(p[2..])
        case Some(rest) => Some([p[1]] + rest)
        case None => None
      else None
    else if IsMeta(p[0]) then None
    else
      match Literal(p[1..])
      case Some(rest) => Some([p[0]] + rest)
      case None => None
  }

  /** The escaped label is a literal pattern for exactly the label. */
  lemma {:induction false} EscapeIsLiteral(s: string)
    ensures Literal(Escape(s)) == Some(s)
  {
    if |s| > 0 {
      EscapeIsLiteral(s[1..]);
      var e := Escape(s);
      if IsMeta(s[0]) {
        assert e[2..] == Escape(s[1..]);
      } else {
        assert e[1..] == Escape(s[1..]);
      }
      assert [s[0]] + s[1..] == s;
    }
  }

  /** What the regular expression `(^P$|\.P$)` accepts, for a literal
      pattern `P` standing for `lit`: the string itself, or any string ending
      in a dot and `lit`. */
  predicate HostMatches(lit: string, data: string)
  {
    data == lit || EndsWith(data, "." + lit)
  }

  /** The base `filterMatch` accepts every match
      (lib/transforms/shodan/index.js:14-16). */
  predicate AcceptAll(text: string, m: Match)
  {
    true
  }

  /** A string field of the certificate, `''` when absent. */
  function Field(o: Option<string>): string
  {
    if o.Some? then o.value else ""
  }

  /** The certificate of a match; an empty one when the match has none. */
  function CertOf(m: Match): Cert
  {
    if m.ssl.Some? && m.ssl.value.cert.Some? then m.ssl.value.cert.value else Cert(None, [])
  }

  /** The subject CN or the data of some extension matches. */
  predicate CertMatches(lit: string, cert: Cert)
  {
    || HostMatches(lit, Field(cert.subjectCN))
    || exists i :: 0 <= i < |cert.extensions| && HostMatches(lit, Field(cert.extensions[i]))
  }

  /** `filterMatch` of the SSL search (lib/transforms/shodan/index.js:183-196):
      the pattern built from the escaped label is tested against the subject
      CN and the extensions' data. */
  predicate SslFilterMatch(text: string, m: Match)
  {
    var p := Literal(Escape(text));
    p.Some? && CertMatches(p.value, CertOf(m))
  }

  /** The label is matched literally: regular-expression characters in it
      stand for themselves. */
  lemma SslFilterSpec(text: string, m: Match)
    ensures SslFilterMatch(text, m) <==> CertMatches(text, CertOf(m))
  {
    EscapeIsLiteral(text);
  }

  /** A match without a certificate passes the SSL filter only for the empty
      label, which the empty string matches. */
  lemma SslFilterWithoutCert(text: string, m: Match)
    requires m.ssl.None?
    ensures SslFilterMatch(text, m) <==> text == ""
  {
    EscapeIsLiteral(text);
    assert CertOf(m) == Cert(None, []);
    if text != "" {
      assert !EndsWith("", "." + text);
    }
  }

  /** Every subdomain of the label passes: `<sub>.<label>`. */
  lemma SubdomainMatches(lit: string, sub: string)
    ensures HostMatches(lit, sub + "." + lit)
  {
    var d := sub + "." + lit;
    assert d == sub + ("." + lit);
    assert d[|d| - |"." + lit|..] == "." + lit;
  }

  /** A host that ends with the label without a dot in front of it, such as
      `badexample.com` for `example.com`, does not pass. */
  lemma LookAlikeDoesNotMatch(lit: string, data: string)
    requires |data| > |lit| && data[|data| - |lit|..] == lit && data[|data| - |lit| - 1] != '.'
    ensures !HostMatches(lit, data)
  {
  }

  // ---------------------------------------------------------------- specs of a match

  /** The label of a port node, `${port}/TCP`. */
  function PortLabel(port: int): string
  {
    IntToDecimal(port) + "/TCP"
  }

  /** The port number can be read back from the label of its port node. */
  lemma PortLabelRoundTrip(port: nat)
    ensures var l := PortLabel(port);
      && EndsWith(l, "/TCP")
      && (forall i :: 0 <= i < |l| - 4 ==> '0' <= l[i] <= '9')
      && DecimalValue(l[..|l| - 4]) == port
  {
    var l := PortLabel(port);
    assert l[..|l| - 4] == NatToDecimal(port);
    assert l[|l| - 4..] == "/TCP";
    DecimalRoundTrip(port);
  }

  /** The specs one accepted match contributes
      (lib/transforms/shodan/index.js:50-64): its IPv4 address linked to the
      searched node, its port and each hostname linked to the address. */
  function MatchSpecs(m: Match, source: string, makeId: (string, string) -> string, t: TypeNames): (r: seq<NodeSpec>)
    ensures |r| == 2 + |m.hostnames|
    ensures r[0].id == makeId(t.ipv4, m.ip) && r[0].typ == t.ipv4 && r[0].lbl == m.ip
    ensures r[0].edges == [Bare(source)]
    ensures forall i :: 1 <= i < |r| ==> r[i].edges == [Bare(r[0].id)]
    ensures r[1].typ == t.port && r[1].lbl == PortLabel(m.port)
    ensures r[1].props == Some(map["port" := Num(m.port), "ssl" := Bool(m.ssl.Some?)])
    ensures forall i :: 2 <= i < |r| ==> r[i].typ == t.domain && r[i].lbl == m.hostnames[i - 2] && r[i].id == ""
  {
    var ipv4Id := makeId(t.ipv4, m.ip);
    var portLabel := PortLabel(m.port);
    var head := [NodeSpec(ipv4Id, t.ipv4, m.ip, Some(map["ipv4" := Str(m.ip)]), [Bare(source)], map[]),
                 NodeSpec(makeId(t.port, portLabel), t.port, portLabel,
                          Some(map["port" := Num(m.port), "ssl" := Bool(m.ssl.Some?)]), [Bare(ipv4Id)], map[])];
    var hosts := seq(|m.hostnames|, i requires 0 <= i < |m.hostnames| =>
                       NodeSpec("", t.domain, m.hostnames[i], Some(map["domain" := Str(m.hostnames[i])]), [Bare(ipv4Id)], map[]));
    var r := head + hosts;
    assert r[0] == head[0] && r[1] == head[1];
    assert forall i :: 2 <= i < |r| ==> r[i] == hosts[i - 2];
    r
  }

  /** The specs of the accepted matches of one page, in order
      (lib/transforms/shodan/index.js:45-65). */
  function PageSpecs(ms: seq<Match>, text: string, source: string, keep: (string, Match) -> bool,
                     makeId: (string, string) -> string, t: TypeNames): seq<NodeSpec>
  {
    if |ms| == 0 then []
    else
      var m := ms[|ms| - 1];
      PageSpecs(ms[..|ms| - 1], text, source, keep, makeId, t)
        + (if keep(text, m) then MatchSpecs(m, source, makeId, t) else [])
  }

  /** The spec at `i` is an IPv4 spec linked to the searched node, or is
      linked to an IPv4 spec before it. */
  predicate LinkedAt(r: seq<NodeSpec>, i: nat, source: string, ipv4: string)
    requires i < |r|
  {
    || (r[i].typ == ipv4 && r[i].edges == [Bare(source)])
    || exists j :: 0 <= j < i && r[j].typ == ipv4 && r[i].edges == [Bare(r[j].id)]
  }

  /** Every spec is linked back: added in order, no edge names a missing
      source. */
  predicate LinkedBack(r: seq<NodeSpec>, source: string, ipv4: string)
  {
    forall i :: 0 <= i < |r| ==> LinkedAt(r, i, source, ipv4)
  }

  lemma LinkedBackAppend(a: seq<NodeSpec>, b: seq<NodeSpec>, source: string, ipv4: string)
    requires LinkedBack(a, source, ipv4) && LinkedBack(b, source, ipv4)
    ensures LinkedBack(a + b, source, ipv4)
  {
    var r := a + b;
    assert r[..|a|] == a && r[|a|..] == b;
    forall i | 0 <= i < |a| ensures LinkedAt(r, i, source, ipv4) {
      LinkedShift(a, r, i, 0, source, ipv4);
    }
    forall i | |a| <= i < |r| ensures LinkedAt(r, i, source, ipv4) {
      LinkedShift(b, r, i - |a|, |a|, source, ipv4);
    }
  }

  /** A linked position stays linked when `s` sits at `off` in `r`. */
  lemma LinkedShift(s: seq<NodeSpec>, r: seq<NodeSpec>, i: nat, off: nat, source: string, ipv4: string)
    requires i < |s| && LinkedAt(s, i, source, ipv4) && off + |s| <= |r|
    requires r[off..off + |s|] == s
    ensures LinkedAt(r, off + i, source, ipv4)
  {
    assert r[off + i] == r[off..off + |s|][i] == s[i];
    if !(s[i].typ == ipv4 && s[i].edges == [Bare(source)]) {
      var j :| 0 <= j < i && s[j].typ == ipv4 && s[i].edges == [Bare(s[j].id)];
      assert r[off + j] == r[off..off + |s|][j] == s[j];
    }
  }

  lemma MatchSpecsLinked(m: Match, source: string, makeId: (string, string) -> string, t: TypeNames)
    ensures LinkedBack(MatchSpecs(m, source, makeId, t), source, t.ipv4)
  {
    var r := MatchSpecs(m, source, makeId, t);
    forall i | 0 <= i < |r| ensures LinkedAt(r, i, source, t.ipv4) {
      if i > 0 {
        assert r[0].typ == t.ipv4 && r[i].edges == [Bare(r[0].id)];
      }
    }
  }

  lemma {:induction false} PageSpecsLinked(ms: seq<Match>, text: string, source: string, keep: (string, Match) -> bool,
                                           makeId: (string, string) -> string, t: TypeNames)
    ensures LinkedBack(PageSpecs(ms, text, source, keep, makeId, t), source, t.ipv4)
  {
    if |ms| > 0 {
      var m := ms[|ms| - 1];
      PageSpecsLinked(ms[..|ms| - 1], text, source, keep, makeId, t);
      MatchSpecsLinked(m, source, makeId, t);
      var tail: seq<NodeSpec> := [];
      assert LinkedBack(tail, source, t.ipv4);
      LinkedBackAppend(PageSpecs(ms[..|ms| - 1], text, source, keep, makeId, t),
                       if keep(text, m) then MatchSpecs(m, source, makeId, t) else tail, source, t.ipv4);
    }
  }

  /** A filter that rejects every match yields no specs. */
  lemma {:induction false} PageSpecsRejected(ms: seq<Match>, text: string, source: string, keep: (string, Match) -> bool,
                                             makeId: (string, string) -> string, t: TypeNames)
    requires forall i :: 0 <= i < |ms| ==> !keep(text, ms[i])
    ensures PageSpecs(ms, text, source, keep, makeId, t) == []
  {
    if |ms| > 0 {
      PageSpecsRejected(ms[..|ms| - 1], text, source, keep, makeId, t);
    }
  }

  // ---------------------------------------------------------------- paging

  const NoKey := "No shodan key supplied."

  /** The request for the next page failed: the responses ran out. */
  const NoResponse := "Request failed."

  /** The paging loop (lib/transforms/shodan/index.js:25-74) from a running
      count: an empty page ends it; otherwise the page's specs are kept, the
      count grows by all its matches, accepted or not, and the loop ends once
      the count reaches `total`. */
  function Harvest(rs: seq<Response>, count: int, text: string, source: string, keep: (string, Match) -> bool,
                   makeId: (string, string) -> string, t: TypeNames): Result<seq<NodeSpec>>
    decreases |rs|
  {
    if |rs| == 0 then Failure(NoResponse)
    else if |rs[0].matches| == 0 then Success([])
    else
      var here := PageSpecs(rs[0].matches, text, source, keep, makeId, t);
      var c := count + |rs[0].matches|;
      if rs[0].total.Some? && c >= rs[0].total.value then Success(here)
      else
        match Harvest(rs[1..], c, text, source, keep, makeId, t)
        case Success(more) => Success(here + more)
        case Failure(e) => Failure(e)
  }

  /** The specs found so far, in front of what the rest of the loop finds. */
  function Prepend(found: seq<NodeSpec>, rest: Result<seq<NodeSpec>>): (r: Result<seq<NodeSpec>>)
    ensures r.Success? <==> rest.Success?
    ensures rest.Success? ==> r.value == found + rest.value
    ensures found == [] ==> r == rest
  {
    match rest
    case Success(more) => assert found == [] ==> found + more == more; Success(found + more)
    case Failure(e) => Failure(e)
  }

  /** How many pages the loop asks for, counting a request left unanswered. */
  function Pages(rs: seq<Response>, count: int): (n: nat)
    ensures n >= 1
    decreases |rs|
  {
    if |rs| == 0 || |rs[0].matches| == 0 then 1
    else
      var c := count + |rs[0].matches|;
      if rs[0].total.Some? && c >= rs[0].total.value then 1 else 1 + Pages(rs[1..], c)
  }

  /** One page more asks for one request more, unless the loop ends there. */
  lemma PagesStep(rs: seq<Response>, count: int)
    requires |rs| > 0 && |rs[0].matches| > 0
    ensures var c := count + |rs[0].matches|;
      !(rs[0].total.Some? && c >= rs[0].total.value) ==> Pages(rs, count) == 1 + Pages(rs[1..], c)
  {
  }

  lemma RequestsNext(key: string, query: string, n: nat)
    ensures Requests(key, query, n) + [Request(key, query, n + 1)] == Requests(key, query, n + 1)
  {
  }

  /** `handle` of either Shodan transform (lib/transforms/shodan/index.js:18-77)
      for one node: no key, no request. */
  function Handle(source: string, text: string, key: string, rs: seq<Response>, keep: (string, Match) -> bool,
                  makeId: (string, string) -> string, t: TypeNames): Result<seq<NodeSpec>>
  {
    if key == "" then Failure(NoKey) else Harvest(rs, 0, text, source, keep, makeId, t)
  }

  /** The requests made: pages 1, 2, ... with the same key and query. */
  function Requests(key: string, query: string, n: nat): (r: seq<Request>)
    ensures |r| == n
    ensures forall i :: 0 <= i < n ==> r[i] == Request(key, query, i + 1)
  {
    seq(n, i requires 0 <= i < n => Request(key, query, i + 1))
  }

  /** Whether the loop ends and when does not depend on the filter: the
      count includes the matches the filter rejects. */
  lemma {:induction false} HarvestIgnoresFilter(rs: seq<Response>, count: int, text: string, source: string,
                                                keep1: (string, Match) -> bool, keep2: (string, Match) -> bool,
                                                makeId: (string, string) -> string, t: TypeNames)
    decreases |rs|
    ensures Harvest(rs, count, text, source, keep1, makeId, t).Success?
        == Harvest(rs, count, text, source, keep2, makeId, t).Success?
  {
    if |rs| > 0 && |rs[0].matches| > 0 {
      HarvestIgnoresFilter(rs[1..], count + |rs[0].matches|, text, source, keep1, keep2, makeId, t);
    }
  }

  /** The loop succeeds exactly when it ends before the responses run out; it
      then has asked for no more pages than there are responses. */
  lemma {:induction false} HarvestPages(rs: seq<Response>, count: int, text: string, source: string,
                                        keep: (string, Match) -> bool, makeId: (string, string) -> string, t: TypeNames)
    decreases |rs|
    ensures Harvest(rs, count, text, source, keep, makeId, t).Success? <==> Pages(rs, count) <= |rs|
    ensures Harvest(rs, count, text, source, keep, makeId, t).Failure? ==>
      Harvest(rs, count, text, source, keep, makeId, t).error == NoResponse
  {
    if |rs| > 0 && |rs[0].matches| > 0 {
      HarvestPages(rs[1..], count + |rs[0].matches|, text, source, keep, makeId, t);
    }
  }

  /** Everything the loop returns is linked back to the searched node. */
  lemma {:induction false} HarvestLinked(rs: seq<Response>, count: int, text: string, source: string,
                                         keep: (string, Match) -> bool, makeId: (string, string) -> string, t: TypeNames)
    decreases |rs|
    ensures Harvest(rs, count, text, source, keep, makeId, t).Success? ==>
      LinkedBack(Harvest(rs, count, text, source, keep, makeId, t).value, source, t.ipv4)
  {
    if |rs| > 0 && |rs[0].matches| > 0 {
      var here := PageSpecs(rs[0].matches, text, source, keep, makeId, t);
      PageSpecsLinked(rs[0].matches, text, source, keep, makeId, t);
      var c := count + |rs[0].matches|;
      HarvestLinked(rs[1..], c, text, source, keep, makeId, t);
      var rest := Harvest(rs[1..], c, text, source, keep, makeId, t);
      if rest.Success? {
        LinkedBackAppend(here, rest.value, source, t.ipv4);
      }
    }
  }

  /** One page of the loop, from the running count: what it adds, and what
      is left to do. */
  lemma HarvestStep(rs: seq<Response>, count: int, found: seq<NodeSpec>, text: string, source: string,
                    keep: (string, Match) -> bool, makeId: (string, string) -> string, t: TypeNames)
    requires |rs| > 0 && |rs[0].matches| > 0
    ensures var here := PageSpecs(rs[0].matches, text, source, keep, makeId, t);
      var c := count + |rs[0].matches|;
      Prepend(found, Harvest(rs, count, text, source, keep, makeId, t))
        == if rs[0].total.Some? && c >= rs[0].total.value then Success(found + here)
           else Prepend(found + here, Harvest(rs[1..], c, text, source, keep, makeId, t))
  {
    var here := PageSpecs(rs[0].matches, text, source, keep, makeId, t);
    var c := count + |rs[0].matches|;
    var rest := Harvest(rs[1..], c, text, source, keep, makeId, t);
    if rest.Success? {
      assert found + (here + rest.value) == found + here + rest.value;
    }
  }

  /** The forEach over the matches of one page (lib/transforms/shodan/index.js:45-65). */
  method CollectPage(ms: seq<Match>, text: string, source: string, keep: (string, Match) -> bool,
                     makeId: (string, string) -> string, t: TypeNames) returns (specs: seq<NodeSpec>)
    ensures specs == PageSpecs(ms, text, source, keep, makeId, t)
  {
    specs := [];
    var i := 0;
    while i < |ms|
      invariant 0 <= i <= |ms|
      invariant specs == PageSpecs(ms[..i], text, source, keep, makeId, t)
    {
      assert ms[..i + 1][..i] == ms[..i];
      if keep(text, ms[i]) {
        specs := specs + MatchSpecs(ms[i], source, makeId, t);
      }
      i := i + 1;
    }
    assert ms[..|ms|] == ms;
  }

  /** `handle` with the page loop as in the source; `query` is what
      `getQuery` made of the label. */
  method HandleSearch(source: string, text: string, key: string, query: string, rs: seq<Response>,
                      keep: (string, Match) -> bool, makeId: (string, string) -> string, t: TypeNames)
    returns (r: Result<seq<NodeSpec>>, requests: seq<Request>)
    ensures r == Handle(source, text, key, rs, keep, makeId, t)
    ensures requests == if key == "" then [] else Requests(key, query, Pages(rs, 0))
  {
    requests := [];
    if key == "" {
      return Failure(NoKey), requests;
    }
    var results: seq<NodeSpec> := [];
    var page := 1;
    var count := 0;
    ghost var rest := rs;
    assert rs[0..] == rs;
    assert Requests(key, query, 0) == [];
    while true
      invariant 1 <= page <= |rs| + 1
      invariant rest == rs[page - 1..]
      invariant requests == Requests(key, query, page - 1)
      invariant Pages(rs, 0) == page - 1 + Pages(rest, count)
      invariant Harvest(rs, 0, text, source, keep, makeId, t)
             == Prepend(results, Harvest(rest, count, text, source, keep, makeId, t))
      decreases |rs| - page
    {
      RequestsNext(key, query, page - 1);
      requests := requests + [Request(key, query, page)];
      if page > |rs| {
        return Failure(NoResponse), requests;
      }
      var response := rs[page - 1];
      assert response == rest[0];
      if |response.matches| == 0 {
        assert results + [] == results;
        break;
      }
      HarvestStep(rest, count, results, text, source, keep, makeId, t);
      PagesStep(rest, count);
      var specs := CollectPage(response.matches, text, source, keep, makeId, t);
      results := results + specs;
      count := count + |response.matches|;
      if response.total.Some? && count >= response.total.value {
        break;
      }
      rest := rest[1..];
      assert rest == rs[page..];
      page := page + 1;
    }
    r := Success(results);
  }

  // ---------------------------------------------------------------- metadata

  /** The ORG search (lib/transforms/shodan/index.js:80-130). */
  function OrgSearch(t: TypeNames): Desc
  {
    Desc("shodanOrgSearch", "Shodan ORG Search", "Performs search using ORG filter.", "Shodan ORG Search",
         ["shodan_org_search", "sos"], ["ce"], [t.brand, t.org], 1, 50)
  }

  /** The SSL search (lib/transforms/shodan/index.js:132-197). */
  function SslSearch(t: TypeNames): Desc
  {
    Desc("shodanSslSearch", "Shodan SSL Search", "Performs search using SSL filter.", "Shodan SSL Search",
         ["shodan_ssl_search", "sss"], ["ce"], [t.domain], 1, 9)
  }

  /** Under a filter with the default noise threshold, wildcard mode never
      runs the ORG search, and runs the SSL search exactly when it is
      registered and some selected node is a domain. */
  lemma DefaultNoiseFilter(jobs: seq<Job>, nodes: seq<Element>, d: Detectors, t: TypeNames, key: string)
    ensures var r := SelectJobs(jobs, nodes, Some(Filter(None, None, None, None, None)), d);
      && SelectJobsAsWritten(jobs, nodes, Some(Filter(None, None, None, None, None)), d) == Success(r)
      && Job(key, OrgSearch(t)) !in r
      && (Job(key, SslSearch(t)) in r <==> Job(key, SslSearch(t)) in jobs && t.domain in NodeTags(nodes, d))
  {
    AsWrittenAgrees(jobs, nodes, Some(Filter(None, None, None, None, None)), d);
    var s := SslSearch(t);
    assert s.types[0] == t.domain;
    assert Applies(s, NodeTags(nodes, d)) <==> t.domain in NodeTags(nodes, d);
  }
}
