/** The statement list produced by the front end, and its three filters. */
module Ast {

  /** One line of a category description. */
  datatype Statement =
    | Object(name: string)
    | Morphism(name: string, from: string, to: string)
    | AssertCommute(lhs: seq<string>, rhs: seq<string>)

  /** A whole description: its statements in source order. */
  datatype CategoryAst = CategoryAst(statements: seq<Statement>)

  /** A freshly created description holds no statements, so every filter is empty. */
  function NewAst(): (a: CategoryAst)
    ensures Objects(a.statements) == []
    ensures Morphisms(a.statements) == map[]
    ensures CommuteAssertions(a.statements) == []
    ensures MorphismStatements(a.statements) == []
  {
    CategoryAst([])
  }

  /** Names of the Object statements, in statement order, duplicates kept. */
  function Objects(ss: seq<Statement>): (r: seq<string>)
    ensures |r| <= |ss|
    ensures forall x :: x in r <==> Object(x) in ss
  {
    if ss == [] then []
    else (if ss[0].Object? then [ss[0].name] else []) + Objects(ss[1..])
  }

  /** The Morphism statements, in statement order. */
  function MorphismStatements(ss: seq<Statement>): (r: seq<Statement>)
    ensures |r| <= |ss|
    ensures forall s :: s in r <==> s in ss && s.Morphism?
  {
    if ss == [] then []
    else (if ss[0].Morphism? then [ss[0]] else []) + MorphismStatements(ss[1..])
  }

  /** The (lhs, rhs) paths of the AssertCommute statements, in statement order. */
  function CommuteAssertions(ss: seq<Statement>): (r: seq<(seq<string>, seq<string>)>)
    ensures |r| <= |ss|
    ensures forall l, h :: (l, h) in r <==> AssertCommute(l, h) in ss
  {
    if ss == [] then []
    else (if ss[0].AssertCommute? then [(ss[0].lhs, ss[0].rhs)] else []) + CommuteAssertions(ss[1..])
  }

  /** ss[i] is the last Morphism statement that declares name n. */
  ghost predicate LastMorphismAt(ss: seq<Statement>, n: string, i: int) {
    && 0 <= i < |ss|
    && ss[i].Morphism?
    && ss[i].name == n
    && forall j :: i < j < |ss| ==> !(ss[j].Morphism? && ss[j].name == n)
  }

  /** The morphisms collected into a map: a later declaration of a name replaces an earlier one. */
  function Morphisms(ss: seq<Statement>): (r: map<string, (string, string)>)
    ensures forall n :: n in r <==> exists i :: 0 <= i < |ss| && ss[i].Morphism? && ss[i].name == n
    ensures forall n :: n in r ==> exists i :: LastMorphismAt(ss, n, i) && r[n] == (ss[i].from, ss[i].to)
  {
    if ss == [] then map[]
    else
      assert ss == ss[..|ss| - 1] + [ss[|ss| - 1]];
      var p := ss[..|ss| - 1];
      var m := Morphisms(p);
      var s := ss[|ss| - 1];
      var r := if s.Morphism? then m[s.name := (s.from, s.to)] else m;
      LastMorphismExtends(p, s, m);
      r
  }

  /** Proof step of Morphisms: appending one statement keeps the map's contract. */
  lemma LastMorphismExtends(p: seq<Statement>, s: Statement, m: map<string, (string, string)>)
    requires forall n :: n in m <==> exists i :: 0 <= i < |p| && p[i].Morphism? && p[i].name == n
    requires forall n :: n in m ==> exists i :: LastMorphismAt(p, n, i) && m[n] == (p[i].from, p[i].to)
    ensures var ss := p + [s];
      var r := if s.Morphism? then m[s.name := (s.from, s.to)] else m;
      && (forall n :: n in r <==> exists i :: 0 <= i < |ss| && ss[i].Morphism? && ss[i].name == n)
      && (forall n :: n in r ==> exists i :: LastMorphismAt(ss, n, i) && r[n] == (ss[i].from, ss[i].to))
  {
    var ss := p + [s];
    var r := if s.Morphism? then m[s.name := (s.from, s.to)] else m;
    forall n | n in r
      ensures exists i :: LastMorphismAt(ss, n, i) && r[n] == (ss[i].from, ss[i].to)
    {
      if s.Morphism? && s.name == n {
        assert LastMorphismAt(ss, n, |p|);
      } else {
        var i :| LastMorphismAt(p, n, i) && m[n] == (p[i].from, p[i].to);
        assert LastMorphismAt(ss, n, i);
      }
    }
    forall n | exists i :: 0 <= i < |ss| && ss[i].Morphism? && ss[i].name == n
      ensures n in r
    {
      var i :| 0 <= i < |ss| && ss[i].Morphism? && ss[i].name == n;
      if i < |p| {
        assert p[i] == ss[i];
      }
    }
    forall n | n in r
      ensures exists i :: 0 <= i < |ss| && ss[i].Morphism? && ss[i].name == n
    {
      if s.Morphism? && s.name == n {
        assert ss[|p|] == s;
      } else {
        var i :| 0 <= i < |p| && p[i].Morphism? && p[i].name == n;
        assert ss[i] == p[i];
      }
    }
  }

  lemma {:induction false} ObjectsAppend(s1: seq<Statement>, s2: seq<Statement>)
    ensures Objects(s1 + s2) == Objects(s1) + Objects(s2)
  {
    if s1 != [] {
      assert (s1 + s2)[1..] == s1[1..] + s2;
      ObjectsAppend(s1[1..], s2);
    } else {
      assert s1 + s2 == s2;
    }
  }

  lemma {:induction false} MorphismStatementsAppend(s1: seq<Statement>, s2: seq<Statement>)
    ensures MorphismStatements(s1 + s2) == MorphismStatements(s1) + MorphismStatements(s2)
  {
    if s1 != [] {
      assert (s1 + s2)[1..] == s1[1..] + s2;
      MorphismStatementsAppend(s1[1..], s2);
    } else {
      assert s1 + s2 == s2;
    }
  }

  lemma {:induction false} CommuteAssertionsAppend(s1: seq<Statement>, s2: seq<Statement>)
    ensures CommuteAssertions(s1 + s2) == CommuteAssertions(s1) + CommuteAssertions(s2)
  {
    if s1 != [] {
      assert (s1 + s2)[1..] == s1[1..] + s2;
      CommuteAssertionsAppend(s1[1..], s2);
    } else {
      assert s1 + s2 == s2;
    }
  }

  /** Every statement has exactly one of the three shapes, so the three filters partition the list. */
  lemma {:induction false} FiltersPartition(ss: seq<Statement>)
    ensures |Objects(ss)| + |MorphismStatements(ss)| + |CommuteAssertions(ss)| == |ss|
  {
    if ss != [] {
      FiltersPartition(ss[1..]);
    }
  }

  /** The map's keys are the names of the Morphism statements, so it has no more entries than them. */
  lemma {:induction false} MorphismsSize(ss: seq<Statement>)
    ensures |Morphisms(ss)| <= |MorphismStatements(ss)|
  {
    if ss != [] {
      var p := ss[..|ss| - 1];
      var s := ss[|ss| - 1];
      assert ss == p + [s];
      MorphismsSize(p);
      MorphismStatementsAppend(p, [s]);
    }
  }
}
