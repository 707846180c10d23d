/** Jabber identifiers, `node@domain/resource`: the printer `JID.String` and
    the parser `JID.Set` of structs.go. The parser's regular expression
    `^(([^@/]+)@)?([^@/]+)(/([^@/]+))?$` is stated as the grammar predicate
    MatchesJidPattern and implemented by a splitter on the first '@' and the
    first '/' after it. */
module Jids {

  import opened Wrappers

  /** An identifier; an empty Node or Resource means the part is absent. */
  datatype Jid = Jid(node: string, domain: string, resource: string)

  /** One part of an identifier: `[^@/]+`. */
  predicate IsPart(p: string) {
    p != [] && '@' !in p && '/' !in p
  }

  /** The identifiers the parser can produce: a domain, and a node and a
      resource that are either absent or proper parts. */
  predicate Valid(j: Jid) {
    && IsPart(j.domain)
    && (j.node == [] || IsPart(j.node))
    && (j.resource == [] || IsPart(j.resource))
  }

  // ---------------------------------------------------------------------------
  // The grammar, group by group
  // ---------------------------------------------------------------------------

  /** `(([^@/]+)@)?` */
  ghost predicate NodeGroup(p: string) {
    p == [] || (|p| > 0 && p[|p| - 1] == '@' && IsPart(p[..|p| - 1]))
  }

  /** `(/([^@/]+))?` */
  ghost predicate ResourceGroup(q: string) {
    q == [] || (|q| > 0 && q[0] == '/' && IsPart(q[1..]))
  }

  /** `s` matches the whole pattern: it splits into a node group, a domain
      and a resource group, in that order. */
  ghost predicate MatchesJidPattern(s: string) {
    exists i, k :: SplitsAt(s, i, k)
  }

  /** The groups of the pattern end at `i` (node group) and `k` (domain). */
  ghost predicate SplitsAt(s: string, i: int, k: int) {
    0 <= i <= k <= |s| && NodeGroup(s[..i]) && IsPart(s[i..k]) && ResourceGroup(s[k..])
  }

  // ---------------------------------------------------------------------------
  // Printer and parser
  // ---------------------------------------------------------------------------

  /** Length of the `node@` prefix the printer writes. */
  function NodeLength(j: Jid): nat {
    if j.node == [] then 0 else |j.node| + 1
  }

  /** `JID.String`: the domain, with `node@` in front when there is a node and
      `/resource` behind when there is a resource. */
  function ToString(j: Jid): string {
    var withNode := if j.node != [] then j.node + "@" + j.domain else j.domain;
    if j.resource != [] then withNode + "/" + j.resource else withNode
  }

  /** Where the parts stand in the printed text: `node@` first when there is
      a node, the domain always, `/resource` last when there is a resource. */
  lemma ToStringLayout(j: Jid)
    ensures var r := ToString(j);
      && |r| == NodeLength(j) + |j.domain| + (if j.resource == [] then 0 else |j.resource| + 1)
      && (j.node != [] ==> r[..NodeLength(j)] == j.node + "@")
      && r[NodeLength(j)..NodeLength(j) + |j.domain|] == j.domain
      && (j.resource != [] ==> r[NodeLength(j) + |j.domain|..] == "/" + j.resource)
  {
  }

  /** Position of the first `c` in `s`, if any. */
  function IndexOf(s: string, c: char): (r: Option<nat>)
    ensures r.Some? <==> c in s
    ensures r.Some? ==> r.value < |s| && s[r.value] == c && c !in s[..r.value]
  {
    if s == [] then None
    else if s[0] == c then Some(0)
    else match IndexOf(s[1..], c)
      case None => None
      case Some(i) =>
        assert s[1..][..i] == s[1..i + 1];
        assert s[..i + 1] == [s[0]] + s[1..i + 1];
        Some(i + 1)
  }

  /** Splits `s` at the first `c`: the text before it and, when `c` occurs,
      the text after it. */
  function SplitFirst(s: string, c: char): (r: (string, Option<string>))
    ensures c !in r.0
    ensures r.1.None? ==> c !in s && r.0 == s
    ensures r.1.Some? ==> s == r.0 + [c] + r.1.value
  {
    match IndexOf(s, c)
    case None => (s, None)
    case Some(i) =>
      assert s == s[..i] + [c] + s[i + 1..];
      (s[..i], Some(s[i + 1..]))
  }

  /** The error text `JID.Set` returns for a string outside the grammar. */
  function NoMatchError(s: string): string {
    s + " doesn't match user@domain/resource"
  }

  /** The parser behind `JID.Set`: the node is what precedes the first '@',
      the domain and resource are what the first '/' after it separates, and
      every part present must be a proper part. */
  function Parse(s: string): (r: Result<Jid, string>)
    ensures r.Failure? ==> r.error == NoMatchError(s)
  {
    var atSplit := SplitFirst(s, '@');
    var node := if atSplit.1.Some? then atSplit.0 else "";
    var rest := atSplit.1.GetOr(s);
    var slashSplit := SplitFirst(rest, '/');
    var domain := slashSplit.0;
    var resource := slashSplit.1.GetOr("");
    if (atSplit.1.Some? ==> IsPart(node)) && IsPart(domain) && (slashSplit.1.Some? ==> IsPart(resource))
    then Success(Jid(node, domain, resource))
    else Failure(NoMatchError(s))
  }

  /** `JID.Set`: on success the identifier is replaced by the parsed one and no
      error is returned; on failure the error text is returned and the
      identifier is left as it was. Success happens exactly for the strings of
      the grammar, and the new identifier prints back as the input. */
  function Set(j: Jid, s: string): (r: (Jid, Option<string>))
    ensures r.1.None? <==> MatchesJidPattern(s)
    ensures r.1.None? ==> Valid(r.0) && ToString(r.0) == s
    ensures r.1.Some? ==> r.0 == j && r.1.value == NoMatchError(s)
  {
    ParseMatchesPattern(s);
    match Parse(s)
    case Success(parsed) =>
      ParseToString(s);
      (parsed, None)
    case Failure(e) => (j, Some(e))
  }

  // ---------------------------------------------------------------------------
  // Round trips and the grammar
  // ---------------------------------------------------------------------------

  /** Whatever the parser accepts is a valid identifier that prints back as
      the parsed text. */
  lemma ParseToString(s: string)
    ensures Parse(s).Success? ==> Valid(Parse(s).value) && ToString(Parse(s).value) == s
  {
    var atSplit := SplitFirst(s, '@');
    var node := if atSplit.1.Some? then atSplit.0 else "";
    var rest := atSplit.1.GetOr(s);
    var slashSplit := SplitFirst(rest, '/');
    var domain := slashSplit.0;
    var resource := slashSplit.1.GetOr("");
    if Parse(s).Success? {
      var j := Parse(s).value;
      assert j == Jid(node, domain, resource);
      if slashSplit.1.Some? {
        assert rest == domain + "/" + resource;
      } else {
        assert rest == domain;
      }
      ToStringSplit(j);
      if atSplit.1.Some? {
        assert s == node + "@" + rest;
      }
    }
  }

  /** The printed text is the node part followed by the domain-and-resource
      part. */
  lemma ToStringSplit(j: Jid)
    ensures ToString(j) == (if j.node != [] then j.node + "@" else [])
                           + (if j.resource != [] then j.domain + "/" + j.resource else j.domain)
  {
  }

  /** A valid identifier is printed as text the parser maps back to it. */
  lemma ToStringParse(j: Jid)
    requires Valid(j)
    ensures Parse(ToString(j)) == Success(j)
  {
    var s := ToString(j);
    var tail := if j.resource != [] then j.domain + "/" + j.resource else j.domain;
    assert '@' !in tail;
    if j.node != [] {
      assert s == j.node + ['@'] + tail;
      SplitUnique(s, '@', j.node, tail);
    } else {
      assert s == tail;
    }
    if j.resource != [] {
      assert tail == j.domain + ['/'] + j.resource;
      SplitUnique(tail, '/', j.domain, j.resource);
    }
  }

  /** Splitting `a + [c] + b` at its first `c`, where `a` holds no `c`, gives
      back `a` and `b`. */
  lemma SplitUnique(s: string, c: char, a: string, b: string)
    requires s == a + [c] + b && c !in a
    ensures SplitFirst(s, c) == (a, Some(b))
  {
    assert s[|a|] == c;
    var i := IndexOf(s, c).value;
    assert s[..|a|] == a;
    assert s[..i] == a;
    assert s[i + 1..] == b;
  }

  /** Every string of the grammar is the printed form of a valid identifier. */
  lemma PatternIsPrinted(s: string) returns (j: Jid)
    requires MatchesJidPattern(s)
    ensures Valid(j) && ToString(j) == s
  {
    var i, k :| SplitsAt(s, i, k);
    var p, d, q := s[..i], s[i..k], s[k..];
    assert NodeGroup(p) && IsPart(d) && ResourceGroup(q);
    j := GroupsToJid(p, d, q);
    SplitThree(s, i, k);
  }

  lemma SplitThree(s: string, i: nat, k: nat)
    requires i <= k <= |s|
    ensures s == s[..i] + s[i..k] + s[k..]
  {
  }

  /** The identifier whose printed form is the three matched groups. */
  lemma GroupsToJid(p: string, d: string, q: string) returns (j: Jid)
    requires NodeGroup(p) && IsPart(d) && ResourceGroup(q)
    ensures Valid(j) && ToString(j) == p + d + q
  {
    var node := if p == [] then [] else p[..|p| - 1];
    var resource := if q == [] then [] else q[1..];
    if p != [] {
      assert p == node + "@";
    }
    if q != [] {
      assert q == "/" + resource;
    }
    j := Jid(node, d, resource);
  }

  /** Every printed valid identifier belongs to the grammar. */
  lemma PrintedIsPattern(j: Jid)
    requires Valid(j)
    ensures MatchesJidPattern(ToString(j))
  {
    var s := ToString(j);
    var i := if j.node == [] then 0 else |j.node| + 1;
    var k := i + |j.domain|;
    assert s[..i] == (if j.node == [] then [] else j.node + "@");
    assert s[i..k] == j.domain;
    assert s[k..] == (if j.resource == [] then [] else "/" + j.resource);
    assert SplitsAt(s, i, k);
  }

  /** The splitter accepts exactly the strings of the regular expression. */
  lemma ParseMatchesPattern(s: string)
    ensures Parse(s).Success? <==> MatchesJidPattern(s)
  {
    if Parse(s).Success? {
      ParseToString(s);
      PrintedIsPattern(Parse(s).value);
    }
    if MatchesJidPattern(s) {
      var j := PatternIsPrinted(s);
      ToStringParse(j);
    }
  }

  /** Concrete cases: `a@b/c` and a bare domain parse into their parts. */
  lemma ParseExamples()
    ensures Parse("a@b/c") == Success(Jid("a", "b", "c"))
    ensures Parse("b") == Success(Jid("", "b", ""))
  {
    ToStringParse(Jid("a", "b", "c"));
    assert ToString(Jid("a", "b", "c")) == "a@b/c";
    ToStringParse(Jid("", "b", ""));
  }

  /** The empty string has no domain, and a '/' before the '@' leaves a '/'
      in the node: both are refused. */
  lemma ParseRejects()
    ensures Parse("").Failure?
    ensures Parse("a/b@c").Failure?
  {
    SplitUnique("a/b@c", '@', "a/b", "c");
    assert '/' in "a/b" by {
      assert "a/b"[1] == '/';
    }
  }
}
