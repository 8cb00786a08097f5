/** The architecture checker's walks over a syntax tree and the file's top-level bindings. */
module Walks {
  import opened Prelude

  /** The TypeScript syntax the walks tell apart; every other node is its list of children. */
  datatype Node =
    | Identifier(text: string)
    | Call(callee: Node, args: seq<Node>)
    | Member(owner: Node, name: Node)
    | Paren(inner: Node)
    | Property(key: Option<string>, parts: seq<Node>)
    | Other(children: seq<Node>)

  /** ts.forEachChild: a member access visits its name, too. */
  function Children(n: Node): (r: seq<Node>)
    ensures forall c | c in r :: c < n
    ensures forall i | 0 <= i < |r| :: r[i] < n
  {
    match n
    case Identifier(_) => []
    case Call(callee, args) => [callee] + args
    case Member(owner, name) => [owner, name]
    case Paren(inner) => [inner]
    case Property(_, parts) => parts
    case Other(children) => children
  }

  // ---------- top-level bindings ----------

  /** One declarator: a destructuring pattern has no name, a declaration may have no initialiser. */
  datatype Declarator = Declarator(name: Option<string>, init: Option<Node>)

  datatype Statement = Variables(declarators: seq<Declarator>) | OtherStatement

  function BindingsOf(ds: seq<Declarator>): seq<(string, Node)> {
    if ds == [] then []
    else BindingsOf(ds[..|ds| - 1])
         + (var d := ds[|ds| - 1]; if d.name.Some? && d.init.Some? then [(d.name.value, d.init.value)] else [])
  }

  function Bindings(ss: seq<Statement>): seq<(string, Node)> {
    if ss == [] then []
    else Bindings(ss[..|ss| - 1])
         + (if ss[|ss| - 1].Variables? then BindingsOf(ss[|ss| - 1].declarators) else [])
  }

  /** The last binding of a name is the one that counts. */
  ghost predicate LastWins(bindings: seq<(string, Node)>, values: map<string, Node>) {
    && (forall x | x in values :: exists i | 0 <= i < |bindings| :: bindings[i].0 == x)
    && (forall i | 0 <= i < |bindings| ::
          bindings[i].0 in values
          && ((forall j | i < j < |bindings| :: bindings[j].0 != bindings[i].0) ==>
            values[bindings[i].0] == bindings[i].1))
  }

  lemma BindLast(bindings: seq<(string, Node)>, values: map<string, Node>, b: (string, Node))
    requires LastWins(bindings, values)
    ensures LastWins(bindings + [b], values[b.0 := b.1])
  {
    var more := bindings + [b];
    assert more[|bindings|] == b;
    var updated := values[b.0 := b.1];
    forall x | x in updated ensures exists i | 0 <= i < |more| :: more[i].0 == x {
      if x != b.0 {
        var i :| 0 <= i < |bindings| && bindings[i].0 == x;
        assert more[i].0 == x;
      }
    }
    forall i | 0 <= i < |more|
      ensures more[i].0 in updated
      ensures (forall j | i < j < |more| :: more[j].0 != more[i].0) ==> updated[more[i].0] == more[i].1
    {
      if i < |bindings| && (forall j | i < j < |more| :: more[j].0 != more[i].0) {
        assert more[|bindings|].0 != more[i].0;
        assert forall j | i < j < |bindings| :: more[j] == bindings[j];
      }
    }
  }

  method TopLevelValues(ss: seq<Statement>) returns (values: map<string, Node>)
    ensures LastWins(Bindings(ss), values)
  {
    values := map[];
    for i := 0 to |ss|
      invariant LastWins(Bindings(ss[..i]), values)
    {
      assert ss[..i + 1][..i] == ss[..i];
      if ss[i].Variables? {
        var ds := ss[i].declarators;
        assert Bindings(ss[..i]) + [] == Bindings(ss[..i]);
        for k := 0 to |ds|
          invariant LastWins(Bindings(ss[..i]) + BindingsOf(ds[..k]), values)
        {
          assert ds[..k + 1][..k] == ds[..k];
          var front := Bindings(ss[..i]) + BindingsOf(ds[..k]);
          if ds[k].name.Some? && ds[k].init.Some? {
            var b := (ds[k].name.value, ds[k].init.value);
            BindLast(front, values, b);
            assert front + [b] == Bindings(ss[..i]) + BindingsOf(ds[..k + 1]);
            values := values[b.0 := b.1];
          } else {
            assert front == Bindings(ss[..i]) + BindingsOf(ds[..k + 1]);
          }
        }
        assert ds[..|ds|] == ds;
      } else {
        assert Bindings(ss[..i + 1]) == Bindings(ss[..i]);
      }
    }
    assert ss[..|ss|] == ss;
  }

  // ---------- reachesVerifier ----------

  /** The set a walk shares with every walk it starts. */
  class Names {
    var items: set<string>

    constructor ()
      ensures items == {}
    {
      items := {};
    }
  }

  /** A call that verifies the envelope: the consumer wrapper, or handle() of a bound service runtime. */
  predicate VerifierCall(values: map<string, Node>, n: Node) {
    n.Call?
    && (n.callee == Identifier("defineConsumer")
        || (n.callee.Member? && n.callee.name == Identifier("handle") && n.callee.owner.Identifier?
            && n.callee.owner.text in values
            && var bound := values[n.callee.owner.text];
               bound.Call? && bound.callee == Identifier("defineService")))
  }

  /** A verifier call lies within `k` steps of a node, through children and through bindings. */
  ghost predicate ReachesIn(values: map<string, Node>, n: Node, k: nat)
    decreases k
  {
    k > 0
    && if n.Identifier? then n.text in values && ReachesIn(values, values[n.text], k - 1)
       else VerifierCall(values, n) || exists i | 0 <= i < |Children(n)| :: ReachesIn(values, Children(n)[i], k - 1)
  }

  ghost predicate Reaches(values: map<string, Node>, n: Node) { exists k: nat :: ReachesIn(values, n, k) }

  /** Nothing is left to find in a node but through names already seen. */
  ghost predicate Covered(values: map<string, Node>, seen: set<string>, n: Node) {
    if n.Identifier? then n.text in values ==> n.text in seen
    else !VerifierCall(values, n) && forall c | c in Children(n) :: Covered(values, seen, c)
  }

  lemma {:induction false} CoveredGrows(values: map<string, Node>, seen: set<string>, more: set<string>, n: Node)
    requires Covered(values, seen, n) && seen <= more
    ensures Covered(values, more, n)
  {
    if !n.Identifier? {
      forall c | c in Children(n) { CoveredGrows(values, seen, more, c); }
    }
  }

  /** Names whose bindings are covered by those names lead nowhere: the shared set causes no miss. */
  lemma {:induction false} CoveredIsBarren(values: map<string, Node>, seen: set<string>, n: Node, k: nat)
    requires Covered(values, seen, n)
    requires forall x | x in seen && x in values :: Covered(values, seen, values[x])
    ensures !ReachesIn(values, n, k)
    decreases k
  {
    if k > 0 {
      if n.Identifier? {
        if n.text in values {
          CoveredIsBarren(values, seen, values[n.text], k - 1);
        }
      } else {
        forall i | 0 <= i < |Children(n)| ensures !ReachesIn(values, Children(n)[i], k - 1) {
          assert Children(n)[i] in Children(n);
          CoveredIsBarren(values, seen, Children(n)[i], k - 1);
        }
      }
    }
  }

  lemma ReachesChild(values: map<string, Node>, n: Node, i: nat)
    requires !n.Identifier? && i < |Children(n)| && Reaches(values, Children(n)[i])
    ensures Reaches(values, n)
  {
    var k: nat :| ReachesIn(values, Children(n)[i], k);
    assert ReachesIn(values, n, k + 1);
  }

  lemma ReachesBinding(values: map<string, Node>, n: Node)
    requires n.Identifier? && n.text in values && Reaches(values, values[n.text])
    ensures Reaches(values, n)
  {
    var k: nat :| ReachesIn(values, values[n.text], k);
    assert ReachesIn(values, n, k + 1);
  }

  lemma Fewer(keys: set<string>, seen: set<string>, more: set<string>)
    requires seen <= more
    ensures |keys - more| <= |keys - seen|
    ensures (exists x :: x in keys && x in more && x !in seen) ==> |keys - more| < |keys - seen|
  {
    var a, b := keys - more, keys - seen;
    assert b == a + (b - a);
    assert |b| == |a| + |b - a|;
    if x :| x in keys && x in more && x !in seen {
      assert x in b - a;
    }
  }

  /** Every name a walk added is bound, and its binding is covered by the names seen since. */
  ghost predicate Closed(values: map<string, Node>, before: set<string>, seen: set<string>) {
    forall x | x in seen && x !in before :: x in values && Covered(values, seen, values[x])
  }

  lemma ClosedGrows(values: map<string, Node>, before: set<string>, seen: set<string>, more: set<string>)
    requires Closed(values, before, seen) && Closed(values, seen, more) && seen <= more
    ensures Closed(values, before, more)
  {
    forall x | x in more && x !in before ensures x in values && Covered(values, more, values[x]) {
      if x in seen {
        CoveredGrows(values, seen, more, values[x]);
      }
    }
  }

  ghost predicate AllCovered(values: map<string, Node>, seen: set<string>, children: seq<Node>) {
    forall c | c in children :: Covered(values, seen, c)
  }

  lemma AllCoveredGrows(
    values: map<string, Node>, seen: set<string>, more: set<string>, children: seq<Node>, i: nat)
    requires i < |children| && AllCovered(values, seen, children[..i]) && seen <= more
    requires Covered(values, more, children[i])
    ensures AllCovered(values, more, children[..i + 1])
  {
    forall c | c in children[..i + 1] ensures Covered(values, more, c) {
      if c in children[..i] {
        CoveredGrows(values, seen, more, c);
      }
    }
  }

  /** reachesVerifier: follow a name once, recognise a verifier call, else visit every child. */
  method ReachesVerifier(n: Node, values: map<string, Node>, seen: Names) returns (found: bool)
    modifies seen
    ensures old(seen.items) <= seen.items <= old(seen.items) + values.Keys
    ensures found ==> Reaches(values, n)
    ensures !found ==> Covered(values, seen.items, n) && Closed(values, old(seen.items), seen.items)
    decreases |values.Keys - seen.items|, n, 1
  {
    if n.Identifier? {
      if n.text !in values || n.text in seen.items {
        return false;
      }
      Fewer(values.Keys, seen.items, seen.items + {n.text});
      seen.items := seen.items + {n.text};
      found := ReachesVerifier(values[n.text], values, seen);
      if found {
        ReachesBinding(values, n);
      }
    } else if VerifierCall(values, n) {
      assert ReachesIn(values, n, 1);
      found := true;
    } else {
      found := VisitChildren(Children(n), n, values, seen);
      if found {
        ghost var i :| 0 <= i < |Children(n)| && Reaches(values, Children(n)[i]);
        ReachesChild(values, n, i);
      }
    }
  }

  /** forEachChild with a callback that returns nothing: a child found does not stop the visit. */
  method VisitChildren(children: seq<Node>, ghost parent: Node, values: map<string, Node>, seen: Names)
    returns (found: bool)
    requires forall c | c in children :: c < parent
    modifies seen
    ensures old(seen.items) <= seen.items <= old(seen.items) + values.Keys
    ensures found ==> exists i | 0 <= i < |children| :: Reaches(values, children[i])
    ensures !found ==> AllCovered(values, seen.items, children) && Closed(values, old(seen.items), seen.items)
    decreases |values.Keys - seen.items|, parent, 0
  {
    found := false;
    ghost var at := 0;
    for i := 0 to |children|
      invariant old(seen.items) <= seen.items <= old(seen.items) + values.Keys
      invariant found ==> 0 <= at < |children| && Reaches(values, children[at])
      invariant !found ==> AllCovered(values, seen.items, children[..i]) && Closed(values, old(seen.items), seen.items)
    {
      ghost var before := seen.items;
      Fewer(values.Keys, old(seen.items), before);
      assert children[i] in children;
      var here := ReachesVerifier(children[i], values, seen);
      if here {
        found, at := true, i;
      } else if !found {
        ClosedGrows(values, old(seen.items), before, seen.items);
        AllCoveredGrows(values, before, seen.items, children, i);
      }
    }
    assert children[..|children|] == children;
  }

  /** The judgement noUnverifiedConsumer passes on a handler: exact, on every tree and every cyclic binding map. */
  method HandlerIsVerified(body: Node, values: map<string, Node>) returns (verified: bool)
    ensures verified <==> Reaches(values, body)
  {
    var seen := new Names();
    verified := ReachesVerifier(body, values, seen);
    if !verified {
      forall k: nat ensures !ReachesIn(values, body, k) {
        CoveredIsBarren(values, seen.items, body, k);
      }
    }
  }

  // ---------- rootedInZObject ----------

  /** The nodes a walk hands on for scanning. */
  class Nodes {
    var items: seq<Node>

    constructor ()
      ensures items == []
    {
      items := [];
    }
  }

  /** Where a chain of calls, parentheses and member accesses bottoms out. */
  datatype Root = ZObject | Name(text: string) | Elsewhere

  function Strip(n: Node): Root {
    match n
    case Call(callee, _) => Strip(callee)
    case Paren(inner) => Strip(inner)
    case Member(owner, name) =>
      if name == Identifier("object") && owner == Identifier("z") then ZObject else Strip(owner)
    case Identifier(text) => Name(text)
    case _ => Elsewhere
  }

  /** Following `k` bindings from an expression arrives at z.object. */
  ghost predicate RootedAt(values: map<string, Node>, n: Node, k: nat)
    decreases k
  {
    match Strip(n)
    case ZObject => k == 0
    case Name(x) => k > 0 && x in values && RootedAt(values, values[x], k - 1)
    case Elsewhere => false
  }

  ghost predicate Rooted(values: map<string, Node>, n: Node) { exists k: nat :: RootedAt(values, n, k) }

  /** The expression and every initialiser the chain goes through. */
  ghost function Chain(values: map<string, Node>, n: Node, k: nat): seq<Node>
    requires RootedAt(values, n, k)
    decreases k
  {
    [n] + (match Strip(n) case Name(x) => Chain(values, values[x], k - 1) case _ => [])
  }

  lemma {:induction false} RootedAtUnique(values: map<string, Node>, n: Node, j: nat, k: nat)
    requires RootedAt(values, n, j) && RootedAt(values, n, k)
    ensures j == k
    decreases j
  {
    if j > 0 {
      RootedAtUnique(values, values[Strip(n).text], j - 1, k - 1);
    }
  }

  /** Each name already followed is no closer to z.object than the expression now in hand. */
  ghost predicate Trail(values: map<string, Node>, seen: set<string>, n: Node) {
    forall x | x in seen :: x in values && Ahead(values, values[x], n)
  }

  ghost predicate Ahead(values: map<string, Node>, before: Node, n: Node) {
    forall k: nat | RootedAt(values, before, k) :: exists j: nat | j <= k :: RootedAt(values, n, j)
  }

  lemma TrailStep(values: map<string, Node>, seen: set<string>, n: Node, x: string)
    requires Trail(values, seen, n) && Strip(n) == Name(x) && x in values
    ensures Trail(values, seen + {x}, values[x])
  {
    forall y | y in seen + {x} ensures Ahead(values, values[y], values[x]) {
      forall k: nat | RootedAt(values, values[y], k) ensures exists j: nat | j <= k :: RootedAt(values, values[x], j) {
        if y in seen {
          assert Ahead(values, values[y], n);
          var j: nat :| j <= k && RootedAt(values, n, j);
          assert RootedAt(values, values[x], j - 1);
        }
      }
    }
  }

  /** A chain that comes back to a name it followed never arrives. */
  lemma CycleNeverRooted(values: map<string, Node>, seen: set<string>, n: Node, x: string)
    requires Trail(values, seen, n) && Strip(n) == Name(x) && x in seen
    ensures !Rooted(values, n)
  {
    forall k: nat ensures !RootedAt(values, n, k) {
      if RootedAt(values, n, k) {
        assert Ahead(values, values[x], n) && RootedAt(values, values[x], k - 1);
        var j: nat :| j <= k - 1 && RootedAt(values, n, j);
        RootedAtUnique(values, n, j, k);
      }
    }
  }

  lemma RootedStep(values: map<string, Node>, n: Node, x: string)
    requires Strip(n) == Name(x) && x in values
    ensures Rooted(values, n) <==> Rooted(values, values[x])
  {
    if Rooted(values, n) {
      var k: nat :| RootedAt(values, n, k);
      assert RootedAt(values, values[x], k - 1);
    }
    if Rooted(values, values[x]) {
      var k: nat :| RootedAt(values, values[x], k);
      assert RootedAt(values, n, k + 1);
    }
  }

  /** What a walk from an expression has pushed when it arrives. */
  ghost predicate Scanned(values: map<string, Node>, n: Node, before: seq<Node>, after: seq<Node>) {
    forall k: nat | RootedAt(values, n, k) :: after == before + Chain(values, n, k)
  }

  lemma ScannedStep(values: map<string, Node>, n: Node, x: string, before: seq<Node>, after: seq<Node>)
    requires Strip(n) == Name(x) && x in values && Scanned(values, values[x], before + [n], after)
    ensures Scanned(values, n, before, after)
  {
    forall k: nat | RootedAt(values, n, k) ensures after == before + Chain(values, n, k) {
      assert RootedAt(values, values[x], k - 1);
      Assoc(before, [n], Chain(values, values[x], k - 1));
    }
  }

  lemma ScannedHere(values: map<string, Node>, n: Node, before: seq<Node>)
    requires !Strip(n).Name? || !Rooted(values, n)
    ensures Scanned(values, n, before, before + [n])
  {
    forall k: nat | RootedAt(values, n, k) ensures before + [n] == before + Chain(values, n, k) {
      assert Rooted(values, n);
    }
  }

  /** rootedInZObject: strip to the root in place, then follow one binding. */
  method RootedInZObject(expression: Node, values: map<string, Node>, seen: Names, scan: Nodes) returns (rooted: bool)
    requires Trail(values, seen.items, expression)
    modifies seen, scan
    ensures rooted <==> Rooted(values, expression)
    ensures Scanned(values, expression, old(scan.items), scan.items)
    decreases |values.Keys - seen.items|
  {
    scan.items := scan.items + [expression];
    var current := expression;
    while true
      invariant Strip(current) == Strip(expression)
      invariant seen.items == old(seen.items) && scan.items == old(scan.items) + [expression]
      decreases current
    {
      match current
      case Call(callee, _) => current := callee;
      case Paren(inner) => current := inner;
      case Member(owner, name) =>
        if name == Identifier("object") && owner == Identifier("z") {
          assert RootedAt(values, expression, 0);
          ScannedHere(values, expression, old(scan.items));
          return true;
        }
        current := owner;
      case Identifier(text) =>
        if text !in values {
          ScannedHere(values, expression, old(scan.items));
          return false;
        }
        if text in seen.items {
          CycleNeverRooted(values, seen.items, expression, text);
          ScannedHere(values, expression, old(scan.items));
          return false;
        }
        Fewer(values.Keys, seen.items, seen.items + {text});
        TrailStep(values, seen.items, expression, text);
        seen.items := seen.items + {text};
        rooted := RootedInZObject(values[text], values, seen, scan);
        RootedStep(values, expression, text);
        ScannedStep(values, expression, text, old(scan.items), scan.items);
        return;
      case _ =>
        ScannedHere(values, expression, old(scan.items));
        return false;
    }
  }

  // ---------- scanForOrgId ----------

  /** `.omit({...})`: its argument removes fields, so only what it is called on is scanned. */
  predicate OmitCall(n: Node) { n.Call? && n.callee.Member? && n.callee.name == Identifier("omit") }

  predicate NamesOrgId(orgId: string -> bool, n: Node) { n.Property? && n.key.Some? && orgId(n.key.value) }

  /** An org-id field is declared in a node, outside every omit argument. */
  predicate Declares(orgId: string -> bool, n: Node) {
    if OmitCall(n) then Declares(orgId, n.callee)
    else NamesOrgId(orgId, n) || exists c | c in Children(n) :: Declares(orgId, c)
  }

  /** The fields reported for a node, in the order of the text. */
  function Reported(orgId: string -> bool, n: Node): seq<string>
    decreases n, 1
  {
    if OmitCall(n) then Reported(orgId, n.callee)
    else (if NamesOrgId(orgId, n) then [n.key.value] else []) + ReportedIn(orgId, n, Children(n))
  }

  function ReportedIn(orgId: string -> bool, parent: Node, children: seq<Node>): seq<string>
    requires forall i | 0 <= i < |children| :: children[i] < parent
    decreases parent, 0, |children|
  {
    if children == [] then []
    else ReportedIn(orgId, parent, children[..|children| - 1]) + Reported(orgId, children[|children| - 1])
  }

  ghost predicate NoneDeclares(orgId: string -> bool, nodes: seq<Node>) {
    forall i | 0 <= i < |nodes| :: !Declares(orgId, nodes[i])
  }

  lemma NoneDeclaresLast(orgId: string -> bool, nodes: seq<Node>)
    requires nodes != []
    ensures NoneDeclares(orgId, nodes)
      <==> NoneDeclares(orgId, nodes[..|nodes| - 1]) && !Declares(orgId, nodes[|nodes| - 1])
  {
  }

  /** Nothing is reported exactly where nothing is declared, and only org ids are. */
  lemma {:induction false} ReportedExactly(orgId: string -> bool, n: Node)
    ensures Reported(orgId, n) == [] <==> !Declares(orgId, n)
    ensures forall x | x in Reported(orgId, n) :: orgId(x)
    decreases n, 1
  {
    if OmitCall(n) {
      ReportedExactly(orgId, n.callee);
    } else {
      ReportedInExactly(orgId, n, Children(n));
      assert NoneDeclares(orgId, Children(n)) <==> !exists c | c in Children(n) :: Declares(orgId, c);
    }
  }

  lemma {:induction false} ReportedInExactly(orgId: string -> bool, parent: Node, children: seq<Node>)
    requires forall i | 0 <= i < |children| :: children[i] < parent
    ensures ReportedIn(orgId, parent, children) == [] <==> NoneDeclares(orgId, children)
    ensures forall x | x in ReportedIn(orgId, parent, children) :: orgId(x)
    decreases parent, 0, |children|
  {
    if children != [] {
      ReportedInExactly(orgId, parent, children[..|children| - 1]);
      ReportedExactly(orgId, children[|children| - 1]);
      NoneDeclaresLast(orgId, children);
    }
  }

  class Reports {
    var names: seq<string>

    constructor ()
      ensures names == []
    {
      names := [];
    }
  }

  method ScanForOrgId(n: Node, orgId: string -> bool, reports: Reports)
    modifies reports
    ensures reports.names == old(reports.names) + Reported(orgId, n)
    decreases n
  {
    if OmitCall(n) {
      ScanForOrgId(n.callee, orgId, reports);
      return;
    }
    if NamesOrgId(orgId, n) {
      reports.names := reports.names + [n.key.value];
    }
    ghost var here := reports.names;
    var children := Children(n);
    for i := 0 to |children|
      invariant reports.names == here + ReportedIn(orgId, n, children[..i])
    {
      ScanForOrgId(children[i], orgId, reports);
      NextReported(orgId, n, children, i, here);
    }
    assert children[..|children|] == children;
    Assoc(old(reports.names), if NamesOrgId(orgId, n) then [n.key.value] else [], ReportedIn(orgId, n, children));
  }

  lemma NextReported(orgId: string -> bool, parent: Node, children: seq<Node>, i: nat, here: seq<string>)
    requires (forall k | 0 <= k < |children| :: children[k] < parent) && i < |children|
    ensures (here + ReportedIn(orgId, parent, children[..i])) + Reported(orgId, children[i])
         == here + ReportedIn(orgId, parent, children[..i + 1])
  {
    assert children[..i + 1][..i] == children[..i];
    Assoc(here, ReportedIn(orgId, parent, children[..i]), Reported(orgId, children[i]));
  }

  /** The reports for a list of nodes, one after the other. */
  function ReportedFor(orgId: string -> bool, nodes: seq<Node>): seq<string> {
    if nodes == [] then []
    else ReportedFor(orgId, nodes[..|nodes| - 1]) + Reported(orgId, nodes[|nodes| - 1])
  }

  lemma {:induction false} ReportedForExactly(orgId: string -> bool, nodes: seq<Node>)
    ensures ReportedFor(orgId, nodes) == [] <==> NoneDeclares(orgId, nodes)
    decreases |nodes|
  {
    if nodes != [] {
      ReportedForExactly(orgId, nodes[..|nodes| - 1]);
      ReportedExactly(orgId, nodes[|nodes| - 1]);
      NoneDeclaresLast(orgId, nodes);
    }
  }

  /** The chain arrives at z.object, and nothing along it declares an org id. */
  ghost predicate Harmless(values: map<string, Node>, n: Node, orgId: string -> bool, k: nat) {
    RootedAt(values, n, k) && NoneDeclares(orgId, Chain(values, n, k))
  }

  /**
   * checkContractInput: an input is called indirect exactly when it is no chain built on z.object in this
   * file; otherwise the fields reported are those of the expression and of every initialiser on its chain,
   * so silence means that nothing along it declares an org id.
   */
  method CheckContractInput(value: Node, values: map<string, Node>, orgId: string -> bool)
    returns (indirect: bool, names: seq<string>)
    ensures indirect <==> !Rooted(values, value)
    ensures forall k: nat | RootedAt(values, value, k) :: names == ReportedFor(orgId, Chain(values, value, k))
    ensures !indirect && names == [] <==> exists k: nat :: Harmless(values, value, orgId, k)
  {
    var seen := new Names();
    var scan := new Nodes();
    var reports := new Reports();
    var rooted := RootedInZObject(value, values, seen, scan);
    indirect := !rooted;
    var nodes := scan.items;
    for i := 0 to |nodes|
      invariant reports.names == ReportedFor(orgId, nodes[..i])
    {
      ScanForOrgId(nodes[i], orgId, reports);
      assert nodes[..i + 1][..i] == nodes[..i];
    }
    names := reports.names;
    assert nodes[..|nodes|] == nodes;
    ScannedIsChain(values, value, nodes);
    Silence(values, value, orgId, nodes, names);
  }

  lemma ScannedIsChain(values: map<string, Node>, n: Node, nodes: seq<Node>)
    requires Scanned(values, n, [], nodes)
    ensures forall k: nat | RootedAt(values, n, k) :: nodes == Chain(values, n, k)
  {
    forall k: nat | RootedAt(values, n, k) ensures nodes == Chain(values, n, k) {
      assert [] + Chain(values, n, k) == Chain(values, n, k);
    }
  }

  lemma Silence(values: map<string, Node>, n: Node, orgId: string -> bool, nodes: seq<Node>, names: seq<string>)
    requires names == ReportedFor(orgId, nodes)
    requires forall k: nat | RootedAt(values, n, k) :: nodes == Chain(values, n, k)
    ensures Rooted(values, n) && names == [] <==> exists k: nat :: Harmless(values, n, orgId, k)
  {
    ReportedForExactly(orgId, nodes);
    if Rooted(values, n) && names == [] {
      var k: nat :| RootedAt(values, n, k);
      assert nodes == Chain(values, n, k);
      assert Harmless(values, n, orgId, k);
    }
    if k: nat :| Harmless(values, n, orgId, k) {
      assert nodes == Chain(values, n, k);
    }
  }
}
