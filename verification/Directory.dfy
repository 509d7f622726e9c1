/** What the LDAP server answers during one login, and the graph those answers span. */
module Directory {
  import opened CText

  datatype Dn = Dn(text: CString)

  const MAX_USER_GROUP := 5
  const MAX_TREE_DEPTH := 50
  const MAX_LDAP_GRP_HASH_SIZE := 2000
  const NO_GROUP := 0xff
  const NO_MARKS := [NO_GROUP, NO_GROUP, NO_GROUP, NO_GROUP, NO_GROUP]

  datatype SearchResult = Success | Error | Unknown

  /** One message of an answer chain: an entry with the attributes it carries, or anything else. */
  datatype Message = Entry(memberOf: Option<seq<Dn>>, member: Option<seq<Dn>>) | Other

  /** An answer is a failed call or the chain of messages it returned. */
  datatype Answer = Failed | Answered(chain: seq<Message>)

  /** The answers to the user search and to the group searches in either direction, by base DN;
      a group search based anywhere else fails. */
  datatype Server = Server(user: Answer, up: map<Dn, Answer>, down: map<Dn, Answer>)

  /** ldap_search_ext_s */
  function Search(answers: map<Dn, Answer>, base: Dn): Answer {
    if base in answers then answers[base] else Failed
  }

  /** The configured group DNs; an unused slot holds NULL. */
  type GroupTable = g: seq<Option<Dn>> | |g| == MAX_USER_GROUP witness [None, None, None, None, None]

  /** ldap_next_entry: the first entry after position `from` - 1. */
  function EntryFrom(chain: seq<Message>, from: nat): (r: Option<nat>)
    ensures r.Some? ==> from <= r.value < |chain| && chain[r.value].Entry?
    decreases |chain| - from
  {
    if from >= |chain| then None
    else if chain[from].Entry? then Some(from)
    else EntryFrom(chain, from + 1)
  }

  /** ldap_count_values assigned to a gint16. */
  function Count16(n: nat): (c: nat)
    ensures c <= n
  {
    var low := n % 0x1_0000;
    if low < 0x8000 then low else 0
  }

  /** The memberOf values of one entry that the loops over attrCount reach. */
  function EntryOwners(m: Message): seq<Dn> {
    if m.Entry? && m.memberOf.Some? then m.memberOf.value[..Count16(|m.memberOf.value|)] else []
  }

  /** The entries a group search looks at: advancing from the head of the chain instead of from the
      current message reaches the entry after the head and then stops. */
  function EntriesRead(chain: seq<Message>): seq<nat> {
    var first := EntryFrom(chain, 0);
    var second := EntryFrom(chain, 1);
    if first.None? then []
    else if first.value == 0 && second.Some? then [0, second.value]
    else [first.value]
  }

  function OwnersAt(chain: seq<Message>, entries: seq<nat>): seq<Dn> {
    if entries == [] then []
    else
      var last := entries[|entries| - 1];
      OwnersAt(chain, entries[..|entries| - 1]) + (if last < |chain| then EntryOwners(chain[last]) else [])
  }

  /** The memberOf values of the entries at positions below `upTo`, in order. */
  function OwnersBelow(chain: seq<Message>, upTo: nat): seq<Dn>
    requires upTo <= |chain|
  {
    if upTo == 0 then [] else OwnersBelow(chain, upTo - 1) + EntryOwners(chain[upTo - 1])
  }

  /** The memberOf values of the user: here every entry of the answer is visited. */
  function UserOwners(server: Server): seq<Dn> {
    match server.user
    case Failed => []
    case Answered(chain) => OwnersBelow(chain, |chain|)
  }

  // ---- the graph a search walks ----

  /** What one search direction finds below each DN; None where the search yields nothing usable. */
  type Graph = map<Dn, Option<seq<Dn>>>

  /** Upward: the groups a group is a member of, as far as the code looks at the answer. */
  function Above(answer: Answer): Option<seq<Dn>> {
    match answer
    case Failed => None
    case Answered(chain) => Some(OwnersAt(chain, EntriesRead(chain)))
  }

  /** Downward: the members carried by the first entry. */
  function Below(answer: Answer): Option<seq<Dn>> {
    match answer
    case Failed => None
    case Answered(chain) =>
      var first := EntryFrom(chain, 0);
      if first.None? then None else chain[first.value].member
  }

  function UpGraph(server: Server): Graph {
    map dn | dn in server.up :: Above(server.up[dn])
  }

  function DownGraph(server: Server): Graph {
    map dn | dn in server.down :: Below(server.down[dn])
  }

  function Found(g: Graph, dn: Dn): Option<seq<Dn>> {
    if dn in g then g[dn] else None
  }

  function Next(g: Graph, dn: Dn): seq<Dn> {
    match Found(g, dn) case None => [] case Some(s) => s
  }

  ghost predicate IsPath(g: Graph, p: seq<Dn>) {
    |p| > 0 && forall i :: 0 < i < |p| ==> p[i] in Next(g, p[i - 1])
  }

  /** p leads from one of `roots` to `to` without touching `avoid`. */
  ghost predicate Route(g: Graph, p: seq<Dn>, roots: seq<Dn>, to: Dn, avoid: set<Dn>) {
    && IsPath(g, p)
    && p[0] in roots && p[|p| - 1] == to
    && forall x :: x in p ==> x !in avoid
  }

  ghost predicate Reaches(g: Graph, roots: seq<Dn>, to: Dn, avoid: set<Dn>) {
    exists p :: Route(g, p, roots, to, avoid)
  }

  /** A set that holds the successors of all its members that lie outside `before`. */
  ghost predicate ClosedBeyond(g: Graph, before: set<Dn>, s: set<Dn>) {
    forall x, y :: x in s && x !in before && y in Next(g, x) ==> y in s
  }

  /** A route that avoids `before` cannot leave a set closed beyond `before`. */
  lemma {:induction false} RouteStaysInside(g: Graph, p: seq<Dn>, roots: seq<Dn>, to: Dn,
                                            before: set<Dn>, s: set<Dn>)
    requires Route(g, p, roots, to, before)
    requires forall r :: r in roots ==> r in s
    requires ClosedBeyond(g, before, s)
    ensures to in s
    decreases |p|
  {
    if |p| == 1 {
    } else {
      var q := p[..|p| - 1];
      assert forall x :: x in q ==> x in p;
      RouteStaysInside(g, q, roots, q[|q| - 1], before, s);
      assert q[|q| - 1] == p[|p| - 2] && p[|p| - 2] in p;
    }
  }

  lemma RouteSuffix(g: Graph, p: seq<Dn>, roots: seq<Dn>, to: Dn, avoid: set<Dn>, k: nat)
    requires Route(g, p, roots, to, avoid) && k < |p|
    ensures Route(g, p[k..], [p[k]], to, avoid)
  {
    hide Next;
    var rest := p[k..];
    forall i | 0 < i < |rest| ensures rest[i] in Next(g, rest[i - 1]) {
      assert p[k + i] in Next(g, p[k + i - 1]);
    }
  }

  lemma RouteExtends(g: Graph, head: Dn, p: seq<Dn>, roots: seq<Dn>, to: Dn,
                     avoid: set<Dn>, wider: set<Dn>)
    requires Route(g, p, roots, to, wider) && avoid <= wider && head !in avoid
    requires forall r :: r in roots ==> r in Next(g, head)
    ensures Route(g, [head] + p, [head], to, avoid)
  {
  }

  lemma RouteAppend(g: Graph, p: seq<Dn>, roots: seq<Dn>, to: Dn, beyond: Dn, avoid: set<Dn>)
    requires Route(g, p, roots, to, avoid) && beyond in Next(g, to) && beyond !in avoid
    ensures Route(g, p + [beyond], roots, beyond, avoid)
  {
  }
}
