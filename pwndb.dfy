/** The PwnDB transform of lib/transforms/pwndb/index.js: the POST body
    chosen by node type or by the position of `@`, and the reading of the
    `print_r` dump inside the first `<pre>` of the response into account node
    specs. The request itself is left out: the response text is given.
    `encodeURIComponent` is a function parameter. */
module Pwndb {
  import opened Base
  import opened Text
  import opened Graph
  import opened Orchestration
  import opened Types

  const AccountType := "pwndb:account"

  // ---------------------------------------------------------------- the request body

  /** The form body with an encoded user and domain. */
  function Template(user: string, domain: string): string
  {
    "luser=" + user + "&domain=" + domain + "&luseropr=1&domainopr=0&submitform=em"
  }

  /** The body for a domain: any user (`%25` is an encoded `%`). */
  function DomainBody(text: string, enc: string -> string): string
  {
    Template("%25", enc(text))
  }

  /** `const [user = '', domain = ''] = label.split('@')`. */
  function EmailParts(text: string): (string, string)
  {
    var parts := Split(text, '@');
    (parts[0], if |parts| > 1 then parts[1] else "")
  }

  function EmailBody(text: string, enc: string -> string): string
  {
    var (user, domain) := EmailParts(text);
    Template(enc(user), enc(domain))
  }

  /** The `switch` of lib/transforms/pwndb/index.js:51-73. */
  function Body(typ: string, text: string, t: TypeNames, enc: string -> string): string
  {
    if typ == t.domain then DomainBody(text, enc)
    else if typ == t.email then EmailBody(text, enc)
    else if IndexOf(text, '@') > 0 then EmailBody(text, enc)
    else DomainBody(text, enc)
  }

  /** A node of another type is searched as an email exactly when `@` occurs
      after its first character, and as a domain otherwise. */
  lemma BodyOfOtherType(typ: string, text: string, t: TypeNames, enc: string -> string)
    requires typ != t.domain && typ != t.email && t.domain != t.email
    ensures '@' in text && text[0] != '@' ==> Body(typ, text, t, enc) == Body(t.email, text, t, enc)
    ensures '@' !in text || text[0] == '@' ==> Body(typ, text, t, enc) == Body(t.domain, text, t, enc)
  {
    var k := IndexOf(text, '@');
    if '@' in text && text[0] != '@' {
      assert k >= 0 && text[k] == '@';
      assert k != 0;
    }
    if '@' in text && text[0] == '@' {
      assert text[..0] == [];
      assert k == 0;
    }
  }

  /** The domain body is the email body of the user `%`, when `%` encodes as
      `%25`. */
  lemma DomainIsAnyUser(text: string, enc: string -> string)
    requires enc("%") == "%25"
    ensures DomainBody(text, enc) == EmailBody("%@" + text, enc) || '@' in text
  {
    if '@' !in text {
      var s := "%@" + text;
      assert s == "%" + ['@'] + text;
      IndexOfAfter("%", '@', text);
      assert s[..1] == "%" && s[2..] == text;
      assert Split(s, '@') == ["%"] + Split(text, '@');
      assert Split(text, '@') == [text];
    }
  }

  /** The user and domain of a label with one `@` put back together give the
      label. */
  lemma EmailPartsRoundTrip(user: string, domain: string)
    requires '@' !in user && '@' !in domain
    ensures EmailParts(user + "@" + domain) == (user, domain)
  {
    SplitJoin([user, domain], '@');
    assert Join([user, domain], '@') == user + "@" + domain by {
      assert [user, domain][1..] == [domain];
    }
  }

  // ---------------------------------------------------------------- the <pre> element

  /** The first position at or after `i` where `w` occurs, or -1. */
  function FindFrom(s: string, w: string, i: nat): (r: int)
    ensures r == -1 || (i <= r && HasAt(s, r, w))
    ensures r == -1 ==> forall p :: i <= p < |s| ==> !HasAt(s, p, w)
    ensures r >= 0 ==> forall p :: i <= p < r ==> !HasAt(s, p, w)
    decreases |s| - i
  {
    if i >= |s| then -1
    else if HasAt(s, i, w) then i
    else FindFrom(s, w, i + 1)
  }

  /** `text.match(/<pre>([\w\W]+?)<\/pre>/)[1]`: what lies between the first
      `<pre>` and the first `</pre>` at least one character after it. */
  function PreContent(text: string): (r: Option<string>)
    ensures r.Some? ==> exists p, q :: 0 <= p && p + 6 <= q && HasAt(text, p, "<pre>") && HasAt(text, q, "</pre>")
                                      && r.value == text[p + 5..q]
                                      && (forall x :: 0 <= x < p ==> !HasAt(text, x, "<pre>"))
                                      && (forall x :: p + 6 <= x < q ==> !HasAt(text, x, "</pre>"))
    ensures r.None? <==> forall p, q :: 0 <= p && p + 6 <= q < |text| && HasAt(text, p, "<pre>") ==> !HasAt(text, q, "</pre>")
  {
    var p := FindFrom(text, "<pre>", 0);
    if p < 0 then None
    else
      var q := FindFrom(text, "</pre>", p + 6);
      if q < 0 then None
      else Some(text[p + 5..q])
  }

  // ---------------------------------------------------------------- Array( ... ) blocks

  predicate IsDigit(c: char)
  {
    '0' <= c <= '9'
  }

  /** `\w`. */
  predicate IsWord(c: char)
  {
    ('a' <= c <= 'z') || ('A' <= c <= 'Z') || IsDigit(c) || c == '_'
  }

  /** `[\W]*?\(` from `x`: the first `(` with only non-word characters before
      it, or -1. */
  function ParenFrom(c: string, x: nat): (r: int)
    ensures r == -1 || (x <= r < |c| && c[r] == '(')
    ensures r >= 0 ==> forall k :: x <= k < r ==> !IsWord(c[k]) && c[k] != '('
    decreases |c| - x
  {
    if x >= |c| then -1
    else if c[x] == '(' then x
    else if IsWord(c[x]) then -1
    else ParenFrom(c, x + 1)
  }

  /** `/\d[\W]?Array[\W]+?\(([\w\W]*?)\)/` tried at position `i`: the block
      between the parentheses and the position after the match. */
  function BlockAt(c: string, i: nat): (r: Option<(string, nat)>)
    ensures r.Some? ==> i < r.value.1 <= |c|
  {
    if i < |c| && IsDigit(c[i]) then
      var j := if i + 1 < |c| && !IsWord(c[i + 1]) then i + 2 else i + 1;
      if HasAt(c, j, "Array") && j + 5 < |c| && !IsWord(c[j + 5]) then
        var m := ParenFrom(c, j + 6);
        if m >= 0 then
          var e := FindFrom(c, ")", m + 1);
          if e >= 0 then Some((c[m + 1..e], e + 1)) else None
        else None
      else None
    else None
  }

  /** The next match of the block expression at or after `i`, as `exec` with
      the `g` flag finds it. */
  function NextBlock(c: string, i: nat): (r: Option<(string, nat)>)
    ensures r.Some? ==> i < r.value.1 <= |c|
    decreases |c| - i
  {
    if i >= |c| then None
    else
      match BlockAt(c, i)
      case Some(b) => Some(b)
      case None => NextBlock(c, i + 1)
  }

  /** All blocks from `i`, in document order. */
  function Blocks(c: string, i: nat): seq<string>
    decreases |c| - i
  {
    match NextBlock(c, i)
    case None => []
    case Some((b, e)) => [b] + Blocks(c, e)
  }

  // ---------------------------------------------------------------- [key] => value lines

  /** The keys the line expression captures, in the order of its alternation. */
  const Keys: seq<string> := ["id", "luser", "domain", "password"]

  /** The key of `[key]` at `i`, if one of the four is there. */
  function KeyAt(b: string, i: nat): (r: Option<string>)
    ensures r.Some? ==> r.value in Keys && HasAt(b, i, "[" + r.value + "]")
  {
    if HasAt(b, i, "[id]") then Some("id")
    else if HasAt(b, i, "[luser]") then Some("luser")
    else if HasAt(b, i, "[domain]") then Some("domain")
    else if HasAt(b, i, "[password]") then Some("password")
    else None
  }

  /** The end of the line from `v`: `.*` stops before a line terminator. */
  function LineEnd(b: string, v: nat): (e: nat)
    requires v <= |b|
    ensures v <= e <= |b|
    ensures forall k :: v <= k < e ==> !IsLineTerminator(b[k])
    ensures e == |b| || IsLineTerminator(b[e])
    decreases |b| - v
  {
    if v == |b| || IsLineTerminator(b[v]) then v else LineEnd(b, v + 1)
  }

  /** A captured line: key, value, and the position after the match. */
  datatype Line = Line(key: string, value: string, end: nat)

  /** `/\[(id|luser|domain|password)\]\s=>\s(.*)/` tried at position `i`. */
  function LineAt(b: string, i: nat): (r: Option<Line>)
    ensures r.Some? ==> r.value.key in Keys && i < r.value.end <= |b|
    ensures r.Some? ==> forall k :: 0 <= k < |r.value.value| ==> !IsLineTerminator(r.value.value[k])
  {
    match KeyAt(b, i)
    case None => None
    case Some(key) =>
      var p := i + |key| + 2;
      if p + 3 < |b| && IsSpace(b[p]) && HasAt(b, p + 1, "=>") && IsSpace(b[p + 3]) then
        var e := LineEnd(b, p + 4);
        Some(Line(key, b[p + 4..e], e))
      else None
  }

  function NextLine(b: string, i: nat): (r: Option<Line>)
    ensures r.Some? ==> r.value.key in Keys && i < r.value.end <= |b|
    decreases |b| - i
  {
    if i >= |b| then None
    else
      match LineAt(b, i)
      case Some(l) => Some(l)
      case None => NextLine(b, i + 1)
  }

  /** The captured lines of a block from `i`, in order. */
  function Lines(b: string, i: nat): (r: seq<(string, string)>)
    ensures forall k :: 0 <= k < |r| ==> r[k].0 in Keys
    decreases |b| - i
  {
    match NextLine(b, i)
    case None => []
    case Some(l) => [(l.key, l.value)] + Lines(b, l.end)
  }

  /** `entry[key] = value` for each line in turn. */
  function Fold(entry: map<string, string>, ls: seq<(string, string)>): map<string, string>
    decreases |ls|
  {
    if |ls| == 0 then entry else Fold(entry[ls[0].0 := ls[0].1], ls[1..])
  }

  /** A key no line names keeps its value. */
  lemma {:induction false} FoldUntouched(entry: map<string, string>, ls: seq<(string, string)>, k: string)
    requires forall i :: 0 <= i < |ls| ==> ls[i].0 != k
    ensures k in Fold(entry, ls) <==> k in entry
    ensures k in entry ==> Fold(entry, ls)[k] == entry[k]
    decreases |ls|
  {
    if |ls| > 0 {
      assert forall i :: 0 <= i < |ls[1..]| ==> ls[1..][i] == ls[i + 1];
      FoldUntouched(entry[ls[0].0 := ls[0].1], ls[1..], k);
    }
  }

  /** A later line overwrites an earlier one with the same key: a key ends up
      with the value of its last line. */
  lemma {:induction false} FoldLast(entry: map<string, string>, ls: seq<(string, string)>, i: nat)
    requires i < |ls|
    requires forall j :: i < j < |ls| ==> ls[j].0 != ls[i].0
    ensures ls[i].0 in Fold(entry, ls) && Fold(entry, ls)[ls[i].0] == ls[i].1
    decreases |ls|
  {
    assert forall j :: 0 <= j < |ls[1..]| ==> ls[1..][j] == ls[j + 1];
    if i == 0 {
      FoldUntouched(entry[ls[0].0 := ls[0].1], ls[1..], ls[0].0);
    } else {
      FoldLast(entry[ls[0].0 := ls[0].1], ls[1..], i - 1);
    }
  }

  /** A key is in the entry exactly when some line names it. */
  lemma {:induction false} FoldKeys(entry: map<string, string>, ls: seq<(string, string)>)
    ensures forall k :: k in Fold(entry, ls) <==> k in entry || exists i :: 0 <= i < |ls| && ls[i].0 == k
    decreases |ls|
  {
    if |ls| > 0 {
      FoldKeys(entry[ls[0].0 := ls[0].1], ls[1..]);
      assert forall j :: 0 <= j < |ls[1..]| ==> ls[1..][j] == ls[j + 1];
      forall k | exists i :: 0 <= i < |ls| && ls[i].0 == k
        ensures k in Fold(entry, ls)
      {
        var i :| 0 <= i < |ls| && ls[i].0 == k;
        if i > 0 {
          assert ls[1..][i - 1].0 == k;
        }
      }
    }
  }

  /** The entry of a block: only the four keys, last line wins. */
  function EntryOf(b: string): (entry: map<string, string>)
    ensures forall k :: k in entry ==> k in Keys
  {
    var ls := Lines(b, 0);
    FoldKeys(map[], ls);
    Fold(map[], ls)
  }

  // ---------------------------------------------------------------- account specs

  function Field(entry: map<string, string>, k: string): Value
  {
    if k in entry then Str(entry[k]) else Undefined
  }

  /** One account (lib/transforms/pwndb/index.js:97-99). */
  function AccountSpec(entry: map<string, string>, source: string): NodeSpec
  {
    var recordId := Field(entry, "id");
    var user := Field(entry, "luser");
    var domain := Field(entry, "domain");
    NodeSpec("", AccountType, Render(recordId) + "@" + Render(user) + "@" + Render(domain),
             Some(map["recordId" := recordId, "user" := user, "domain" := domain,
                      "password" := Field(entry, "password")]),
             [Bare(source)], map[])
  }

  /** Three parts joined by `@` split back into the parts when none of them
      holds an `@`. */
  lemma JoinedSplits(a: string, b: string, c: string)
    requires '@' !in a && '@' !in b && '@' !in c
    ensures Split(a + "@" + b + "@" + c, '@') == [a, b, c]
  {
    var parts := [a, b, c];
    assert Join([c], '@') == c;
    assert [b, c][1..] == [c];
    assert Join([b, c], '@') == b + "@" + c;
    assert parts[1..] == [b, c];
    assert Join(parts, '@') == a + "@" + (b + "@" + c);
    assert a + "@" + (b + "@" + c) == a + "@" + b + "@" + c;
    SplitJoin(parts, '@');
  }

  /** The label of an account splits back into record id, user and domain
      when none of them holds an `@`. */
  lemma AccountLabelSplits(entry: map<string, string>, source: string)
    requires "id" in entry && "luser" in entry && "domain" in entry
    requires '@' !in entry["id"] && '@' !in entry["luser"] && '@' !in entry["domain"]
    ensures Split(AccountSpec(entry, source).lbl, '@') == [entry["id"], entry["luser"], entry["domain"]]
  {
    JoinedSplits(entry["id"], entry["luser"], entry["domain"]);
  }

  /** One spec per block, in document order. */
  function Accounts(blocks: seq<string>, source: string): (r: seq<NodeSpec>)
    ensures |r| == |blocks|
    ensures forall k :: 0 <= k < |r| ==> r[k] == AccountSpec(EntryOf(blocks[k]), source)
  {
    if |blocks| == 0 then []
    else [AccountSpec(EntryOf(blocks[0]), source)] + Accounts(blocks[1..], source)
  }

  /** The specs of a response (lib/transforms/pwndb/index.js:77-103). */
  function Parse(response: string, source: string): (r: seq<NodeSpec>)
    ensures PreContent(response).None? ==> r == []
    ensures forall k :: 0 <= k < |r| ==> r[k].typ == AccountType && r[k].edges == [Bare(source)]
  {
    match PreContent(response)
    case None => []
    case Some(c) => Accounts(Blocks(c, 0), source)
  }

  /** Only the first `<pre>` is read: anything after its closing tag adds
      nothing. */
  lemma {:induction false} OnlyFirstPre(head: string, body: string, tail: string, source: string)
    requires forall x :: 0 <= x < |head| ==> !HasAt(head + "<pre>", x, "<pre>")
    requires |body| >= 1 && forall x :: 0 <= x < |body| ==> !HasAt(body + "</pre>", x, "</pre>")
    ensures Parse(head + "<pre>" + body + "</pre>" + tail, source) == Accounts(Blocks(body, 0), source)
  {
    var s := head + "<pre>" + body + "</pre>" + tail;
    var p := |head|;
    var q := |head| + 5 + |body|;
    assert s[..p + 5] == head + "<pre>";
    assert s[p + 5..q + 6] == body + "</pre>";
    assert HasAt(s, p, "<pre>") by { assert s[p..p + 5] == s[..p + 5][p..p + 5] == "<pre>"; }
    assert HasAt(s, q, "</pre>") by { assert s[q..q + 6] == s[p + 5..q + 6][|body|..] == "</pre>"; }
    forall x | 0 <= x < p ensures !HasAt(s, x, "<pre>") {
      assert s[x..x + 5] == s[..p + 5][x..x + 5];
      assert !HasAt(head + "<pre>", x, "<pre>");
    }
    forall x | p + 6 <= x < q ensures !HasAt(s, x, "</pre>") {
      var y := x - p - 5;
      assert s[x..x + 6] == s[p + 5..q + 6][y..y + 6];
      assert !HasAt(body + "</pre>", y, "</pre>");
    }
    PreContentAt(s, p, q);
    assert s[p + 5..q] == body;
  }

  /** The content found between a `<pre>` at `p` with none before it and a
      `</pre>` at `q` with none between. */
  lemma PreContentAt(s: string, p: nat, q: nat)
    requires p + 6 <= q && HasAt(s, p, "<pre>") && HasAt(s, q, "</pre>")
    requires forall x :: 0 <= x < p ==> !HasAt(s, x, "<pre>")
    requires forall x :: p + 6 <= x < q ==> !HasAt(s, x, "</pre>")
    ensures PreContent(s) == Some(s[p + 5..q])
  {
    assert FindFrom(s, "<pre>", 0) == p;
    assert FindFrom(s, "</pre>", p + 6) == q;
  }

  // ---------------------------------------------------------------- handle

  /** `handle` (lib/transforms/pwndb/index.js:46-104): the body sent, and the
      specs read from the response. */
  method Handle(source: string, text: string, typ: string, t: TypeNames, enc: string -> string,
                response: string) returns (body: string, results: seq<NodeSpec>)
    ensures body == Body(typ, text, t, enc)
    ensures results == Parse(response, source)
  {
    body := Body(typ, text, t, enc);
    var pre := PreContent(response);
    if pre.None? {
      return body, [];
    }
    results := ReadBlocks(pre.value, source);
  }

  /** The outer `exec` loop: one spec per block. */
  method ReadBlocks(c: string, source: string) returns (results: seq<NodeSpec>)
    ensures results == Accounts(Blocks(c, 0), source)
  {
    results := [];
    var last := 0;
    var arrayMatch := NextBlock(c, last);
    while arrayMatch.Some?
      invariant last <= |c|
      invariant arrayMatch == NextBlock(c, last)
      invariant results + Accounts(Blocks(c, last), source) == Accounts(Blocks(c, 0), source)
      decreases |c| - last
    {
      var entry := ReadEntry(arrayMatch.value.0);
      BlocksStep(c, last, source, results);
      results := results + [AccountSpec(entry, source)];
      last := arrayMatch.value.1;
      arrayMatch := NextBlock(c, last);
    }
    assert Blocks(c, last) == [];
    assert results + [] == results;
  }

  /** One block more: its spec, then the specs of the blocks after it. */
  lemma BlocksStep(c: string, last: nat, source: string, done: seq<NodeSpec>)
    requires NextBlock(c, last).Some?
    ensures var m := NextBlock(c, last).value;
      done + [AccountSpec(EntryOf(m.0), source)] + Accounts(Blocks(c, m.1), source)
        == done + Accounts(Blocks(c, last), source)
  {
    var m := NextBlock(c, last).value;
    var rest := Blocks(c, m.1);
    var head := [AccountSpec(EntryOf(m.0), source)];
    assert Blocks(c, last) == [m.0] + rest;
    AccountsCons(m.0, rest, source);
    assert done + head + Accounts(rest, source) == done + (head + Accounts(rest, source));
  }

  /** The accounts of a block followed by more blocks. */
  lemma AccountsCons(b: string, rest: seq<string>, source: string)
    ensures Accounts([b] + rest, source) == [AccountSpec(EntryOf(b), source)] + Accounts(rest, source)
  {
    assert ([b] + rest)[1..] == rest;
  }

  /** The inner `exec` loop: each captured line sets its key. */
  method ReadEntry(b: string) returns (entry: map<string, string>)
    ensures entry == EntryOf(b)
  {
    entry := map[];
    var last := 0;
    var detailsMatch := NextLine(b, last);
    while detailsMatch.Some?
      invariant last <= |b|
      invariant detailsMatch == NextLine(b, last)
      invariant Fold(entry, Lines(b, last)) == EntryOf(b)
      decreases |b| - last
    {
      var l := detailsMatch.value;
      assert Lines(b, last) == [(l.key, l.value)] + Lines(b, l.end);
      assert ([(l.key, l.value)] + Lines(b, l.end))[1..] == Lines(b, l.end);
      entry := entry[l.key := l.value];
      last := l.end;
      detailsMatch := NextLine(b, last);
    }
  }

  // ---------------------------------------------------------------- metadata

  /** lib/transforms/pwndb/index.js:9-44. */
  function Search(t: TypeNames): Desc
  {
    Desc("pwndbSearch", "PwnDB Search", "Searching the PownDB database", "PwnDB Search",
         ["pwndb_search", "pds"], ["ce"], [t.domain, t.email], 1, 1)
  }

  /** Under the default noise threshold, wildcard mode runs the search when
      it is registered and some selected node is a domain or an email. */
  lemma SearchSelected(jobs: seq<Job>, nodes: seq<Element>, d: Detectors, t: TypeNames, key: string)
    requires Job(key, Search(t)) in jobs
    requires t.domain in NodeTags(nodes, d) || t.email in NodeTags(nodes, d)
    ensures var r := SelectJobsAsWritten(jobs, nodes, Some(Filter(None, None, None, None, None)), d);
      r.Success? && Job(key, Search(t)) in r.value
  {
    AsWrittenAgrees(jobs, nodes, Some(Filter(None, None, None, None, None)), d);
    var s := Search(t);
    if t.domain in NodeTags(nodes, d) {
      assert s.types[0] == t.domain;
    } else {
      assert s.types[1] == t.email;
    }
  }
}
