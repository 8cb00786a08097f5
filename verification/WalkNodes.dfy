/** What the walks read off each kind of node, in the syntax's own terms. */
module WalkNodes {
  import opened Prelude
  import opened Walks

  /** A verifier call, written out: defineConsumer(..), or x.handle(..) with x bound to defineService(..). */
  lemma VerifierExactly(values: map<string, Node>, n: Node)
    ensures VerifierCall(values, n)
      <==> (exists args :: n == Call(Identifier("defineConsumer"), args))
           || exists x, args, options :: n == Call(Member(Identifier(x), Identifier("handle")), args)
                                         && x in values && values[x] == Call(Identifier("defineService"), options)
  {
    if VerifierCall(values, n) {
      if n.callee == Identifier("defineConsumer") {
        assert n == Call(Identifier("defineConsumer"), n.args);
      } else {
        var x := n.callee.owner.text;
        assert n == Call(Member(Identifier(x), Identifier("handle")), n.args);
        assert values[x] == Call(Identifier("defineService"), values[x].args);
      }
    }
  }

  lemma Arrives(values: map<string, Node>, n: Node)
    requires n.Identifier? ==> n.text in values && Reaches(values, values[n.text])
    requires !n.Identifier? ==> VerifierCall(values, n) || exists c :: c in Children(n) && Reaches(values, c)
    ensures Reaches(values, n)
  {
    if n.Identifier? {
      ReachesBinding(values, n);
    } else if VerifierCall(values, n) {
      assert ReachesIn(values, n, 1);
    } else {
      var c :| c in Children(n) && Reaches(values, c);
      var i :| 0 <= i < |Children(n)| && Children(n)[i] == c;
      ReachesChild(values, n, i);
    }
  }

  lemma Leaves(values: map<string, Node>, n: Node)
    requires Reaches(values, n)
    ensures n.Identifier? ==> n.text in values && Reaches(values, values[n.text])
    ensures !n.Identifier? ==> VerifierCall(values, n) || exists c :: c in Children(n) && Reaches(values, c)
  {
    var k: nat :| ReachesIn(values, n, k);
    if n.Identifier? {
      assert ReachesIn(values, values[n.text], k - 1);
    } else if !VerifierCall(values, n) {
      var i :| 0 <= i < |Children(n)| && ReachesIn(values, Children(n)[i], k - 1);
      assert Children(n)[i] in Children(n) && Reaches(values, Children(n)[i]);
    }
  }

  ghost predicate AnyReaches(values: map<string, Node>, nodes: seq<Node>) {
    exists c :: c in nodes && Reaches(values, c)
  }

  /** What reaches a verifier, kind by kind: a name through its binding, anything else through each of its parts. */
  lemma ReachesExactly(values: map<string, Node>, n: Node)
    ensures Reaches(values, n) <==>
      match n
      case Identifier(x) => x in values && Reaches(values, values[x])
      case Call(callee, args) => VerifierCall(values, n) || Reaches(values, callee) || AnyReaches(values, args)
      case Member(owner, name) => Reaches(values, owner) || Reaches(values, name)
      case Paren(inner) => Reaches(values, inner)
      case Property(_, parts) => AnyReaches(values, parts)
      case Other(children) => AnyReaches(values, children)
  {
    assert !n.Identifier? ==> (AnyReaches(values, Children(n)) <==> exists c :: c in Children(n) && Reaches(values, c));
    if Reaches(values, n) {
      Leaves(values, n);
    } else if n.Call? {
      if VerifierCall(values, n) {
        Arrives(values, n);
      }
      if Reaches(values, n.callee) {
        assert n.callee in Children(n);
        Arrives(values, n);
      }
      if c :| c in n.args && Reaches(values, c) {
        assert c in Children(n);
        Arrives(values, n);
      }
    } else if n.Member? {
      assert n.owner in Children(n) && n.name in Children(n);
      if Reaches(values, n.owner) || Reaches(values, n.name) {
        Arrives(values, n);
      }
    } else if n.Paren? {
      assert n.inner in Children(n);
      if Reaches(values, n.inner) {
        Arrives(values, n);
      }
    } else if n.Identifier? {
      if n.text in values && Reaches(values, values[n.text]) {
        Arrives(values, n);
      }
    } else if AnyReaches(values, Children(n)) {
      Arrives(values, n);
    }
  }

  // ---------- the fields reported ----------

  lemma {:induction false} InFor(orgId: string -> bool, parent: Node, nodes: seq<Node>)
    requires forall i | 0 <= i < |nodes| :: nodes[i] < parent
    ensures ReportedIn(orgId, parent, nodes) == ReportedFor(orgId, nodes)
    decreases |nodes|
  {
    if nodes != [] {
      InFor(orgId, parent, nodes[..|nodes| - 1]);
    }
  }

  lemma ForLast(orgId: string -> bool, front: seq<Node>, last: Node)
    ensures ReportedFor(orgId, front + [last]) == ReportedFor(orgId, front) + Reported(orgId, last)
  {
    assert (front + [last])[..|front|] == front;
  }

  lemma {:induction false} ForFront(orgId: string -> bool, first: Node, rest: seq<Node>)
    ensures ReportedFor(orgId, [first] + rest) == Reported(orgId, first) + ReportedFor(orgId, rest)
    decreases |rest|
  {
    if rest == [] {
      ForLast(orgId, [], first);
      assert [] + [first] == [first] + rest;
    } else {
      var front, last := rest[..|rest| - 1], rest[|rest| - 1];
      ForFront(orgId, first, front);
      ForLast(orgId, [first] + front, last);
      ForLast(orgId, front, last);
      assert front + [last] == rest && ([first] + front) + [last] == [first] + rest;
      Assoc(Reported(orgId, first), ReportedFor(orgId, front), Reported(orgId, last));
    }
  }

  /** `.omit(..)`, whatever it is called with, reports what its owner does. */
  lemma OmittedExactly(orgId: string -> bool, owner: Node, args: seq<Node>)
    ensures Reported(orgId, Call(Member(owner, Identifier("omit")), args)) == Reported(orgId, owner)
  {
    var callee, name := Member(owner, Identifier("omit")), Identifier("omit");
    InFor(orgId, callee, [owner, name]);
    ForFront(orgId, owner, [name]);
    ForFront(orgId, name, []);
    assert [owner] + [name] == [owner, name] && [name] + [] == [name];
    assert Reported(orgId, name) == [];
  }

  /** The reports, kind by kind: a field's own name first, then what its parts report, in the order of the text. */
  lemma ReportsExactly(orgId: string -> bool, n: Node)
    requires !(n.Call? && n.callee.Member? && n.callee.name == Identifier("omit"))
    ensures Reported(orgId, n) ==
      match n
      case Identifier(_) => []
      case Call(callee, args) => Reported(orgId, callee) + ReportedFor(orgId, args)
      case Member(owner, name) => Reported(orgId, owner) + Reported(orgId, name)
      case Paren(inner) => Reported(orgId, inner)
      case Property(key, parts) =>
        (if key.Some? && orgId(key.value) then [key.value] else []) + ReportedFor(orgId, parts)
      case Other(children) => ReportedFor(orgId, children)
  {
    InFor(orgId, n, Children(n));
    match n
    case Call(callee, args) => ForFront(orgId, callee, args);
    case Member(owner, name) =>
      assert [owner, name] == [owner] + [name] && [name] == [name] + [];
      ForFront(orgId, owner, [name]);
      ForFront(orgId, name, []);
    case Paren(inner) =>
      assert [inner] == [inner] + [];
      ForFront(orgId, inner, []);
    case _ =>
  }

  // ---------- the root of a chain ----------

  /** Calls, parentheses and member accesses are looked through; z.object ends the chain, and so does a name. */
  lemma StripExactly(n: Node, args: seq<Node>, name: Node, x: string)
    ensures Strip(Identifier(x)) == Name(x)
    ensures Strip(Call(n, args)) == Strip(Paren(n)) == Strip(n)
    ensures Strip(Member(n, name))
         == if n == Identifier("z") && name == Identifier("object") then ZObject else Strip(n)
    ensures n.Property? || n.Other? ==> Strip(n) == Elsewhere
  {
  }

  // ---------- top-level bindings ----------

  ghost predicate LastAt(bindings: seq<(string, Node)>, p: int, x: string, init: Node) {
    && 0 <= p < |bindings| && bindings[p] == (x, init)
    && forall q | p < q < |bindings| :: bindings[q].0 != x
  }

  ghost predicate LastIn(bindings: seq<(string, Node)>, x: string, init: Node) {
    exists p :: LastAt(bindings, p, x, init)
  }

  ghost predicate Binds(bindings: seq<(string, Node)>, x: string) {
    exists p | 0 <= p < |bindings| :: bindings[p].0 == x
  }

  lemma LastJoins(front: seq<(string, Node)>, back: seq<(string, Node)>, x: string, init: Node)
    ensures LastIn(back, x, init) ==> LastIn(front + back, x, init)
    ensures LastIn(front, x, init) && !Binds(back, x) ==> LastIn(front + back, x, init)
    ensures Binds(front + back, x) <==> Binds(front, x) || Binds(back, x)
  {
    var all := front + back;
    if p :| LastAt(back, p, x, init) {
      assert LastAt(all, |front| + p, x, init);
    }
    if LastIn(front, x, init) && !Binds(back, x) {
      var p :| LastAt(front, p, x, init);
      assert LastAt(all, p, x, init);
    }
    if p :| 0 <= p < |front| && front[p].0 == x {
      assert all[p].0 == x;
    }
    if p :| 0 <= p < |back| && back[p].0 == x {
      assert all[|front| + p].0 == x;
    }
  }

  /** A declarator gives x a value. */
  ghost predicate Gives(ds: seq<Declarator>, k: int, x: string) {
    0 <= k < |ds| && ds[k].name == Some(x) && ds[k].init.Some?
  }

  ghost predicate GivesLast(ds: seq<Declarator>, k: int, x: string) {
    Gives(ds, k, x) && forall m | k < m < |ds| :: !Gives(ds, m, x)
  }

  lemma {:induction false} DeclaratorsBind(ds: seq<Declarator>, x: string, k: int)
    ensures Gives(ds, k, x) ==> Binds(BindingsOf(ds), x)
    ensures GivesLast(ds, k, x) ==> LastIn(BindingsOf(ds), x, ds[k].init.value)
    decreases |ds|
  {
    if Gives(ds, k, x) {
      var front, d := ds[..|ds| - 1], ds[|ds| - 1];
      var last := if d.name.Some? && d.init.Some? then [(d.name.value, d.init.value)] else [];
      assert BindingsOf(ds) == BindingsOf(front) + last;
      LastJoins(BindingsOf(front), last, x, ds[k].init.value);
      if k == |ds| - 1 {
        assert last[0].0 == x && LastAt(last, 0, x, d.init.value);
      } else {
        DeclaratorsBind(front, x, k);
        if GivesLast(ds, k, x) {
          assert forall m | k < m < |front| :: Gives(front, m, x) <==> Gives(ds, m, x);
          assert !Gives(ds, |ds| - 1, x);
        }
      }
    }
  }

  lemma {:induction false} BoundByDeclarator(ds: seq<Declarator>, x: string) returns (k: int)
    requires Binds(BindingsOf(ds), x)
    ensures GivesLast(ds, k, x)
    decreases |ds|
  {
    k := |ds| - 1;
    if !Gives(ds, k, x) {
      var front, d := ds[..|ds| - 1], ds[|ds| - 1];
      var last := if d.name.Some? && d.init.Some? then [(d.name.value, d.init.value)] else [];
      LastJoins(BindingsOf(front), last, x, Paren(Identifier(x)));
      k := BoundByDeclarator(front, x);
      assert forall m | 0 <= m < |front| :: Gives(ds, m, x) <==> Gives(front, m, x);
    }
  }

  /** Statement i, a variable statement, gives x this value; nothing after it in the statement gives x another. */
  ghost predicate Declares(ss: seq<Statement>, i: int, k: int, x: string) {
    0 <= i < |ss| && ss[i].Variables? && GivesLast(ss[i].declarators, k, x)
  }

  ghost predicate DeclaresLast(ss: seq<Statement>, i: int, k: int, x: string) {
    Declares(ss, i, k, x) && forall j, m | i < j < |ss| :: !Declares(ss, j, m, x)
  }

  lemma StatementBinds(s: Statement, x: string, k: int) returns (last: seq<(string, Node)>)
    ensures last == if s.Variables? then BindingsOf(s.declarators) else []
    ensures s.Variables? && GivesLast(s.declarators, k, x) ==> LastIn(last, x, s.declarators[k].init.value)
    ensures Binds(last, x) ==> s.Variables? && exists m :: GivesLast(s.declarators, m, x)
  {
    last := if s.Variables? then BindingsOf(s.declarators) else [];
    if s.Variables? {
      DeclaratorsBind(s.declarators, x, k);
      if Binds(last, x) {
        var m := BoundByDeclarator(s.declarators, x);
      }
    }
  }

  lemma {:induction false} StatementsBind(ss: seq<Statement>, i: int, k: int, x: string)
    requires DeclaresLast(ss, i, k, x)
    ensures LastIn(Bindings(ss), x, ss[i].declarators[k].init.value)
    decreases |ss|
  {
    var front, end := ss[..|ss| - 1], |ss| - 1;
    var last := StatementBinds(ss[end], x, k);
    LastJoins(Bindings(front), last, x, ss[i].declarators[k].init.value);
    if i < end {
      forall j, m | i < j < |front| ensures !Declares(front, j, m, x) {
        assert !Declares(ss, j, m, x);
      }
      StatementsBind(front, i, k, x);
      if Binds(last, x) {
        var m :| GivesLast(ss[end].declarators, m, x);
        assert Declares(ss, end, m, x);
      }
    }
  }

  lemma {:induction false} BoundByStatement(ss: seq<Statement>, x: string) returns (i: int, k: int)
    requires Binds(Bindings(ss), x)
    ensures Declares(ss, i, k, x)
    decreases |ss|
  {
    var front := ss[..|ss| - 1];
    var last := StatementBinds(ss[|ss| - 1], x, 0);
    LastJoins(Bindings(front), last, x, Paren(Identifier(x)));
    if Binds(last, x) {
      i := |ss| - 1;
      k :| GivesLast(ss[i].declarators, k, x);
    } else {
      i, k := BoundByStatement(front, x);
    }
  }

  /** A name has a value exactly when some declarator gives it one, and then it is the last such declarator's. */
  lemma TopLevelExactly(ss: seq<Statement>, values: map<string, Node>, x: string, i: int, k: int)
    requires LastWins(Bindings(ss), values)
    ensures x in values ==> exists j, m :: Declares(ss, j, m, x)
    ensures DeclaresLast(ss, i, k, x) ==> x in values && values[x] == ss[i].declarators[k].init.value
  {
    if x in values {
      assert Binds(Bindings(ss), x);
      var j, m := BoundByStatement(ss, x);
    }
    if DeclaresLast(ss, i, k, x) {
      StatementsBind(ss, i, k, x);
      var p :| LastAt(Bindings(ss), p, x, ss[i].declarators[k].init.value);
    }
  }
}
