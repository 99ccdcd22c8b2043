/** The WHERE-clause shape shared by Company.findAll and Job.findAll
    (models/company.js and models/job.js): a list of conditions, each either a
    comparison of a column with a numbered placeholder or a fixed text, and the
    list of values bound to the placeholders.

    What a filter means is written as a list of predicates with their values
    inline. `Numbered` is the reference numbering (placeholders from 1 in
    order, one per comparison) and `Bind` is what the database does with the
    values; the lemmas show that binding the numbered conditions gives back
    exactly the intended predicates. */
module Where {
  import opened Values
  import opened Text

  /** One entry of `whereSub`. */
  datatype Condition =
    | Compare(column: string, op: string, param: nat)
    | Fixed(text: string)

  /** A comparison is `column op $param`, its placeholder's digits last; a
      fixed condition is its text. */
  function RenderCondition(c: Condition): (r: string)
    ensures c.Fixed? ==> r == c.text
    ensures c.Compare? ==> var head := c.column + " " + c.op + " $";
              head <= r && r[|head|..] == NatToString(c.param)
  {
    match c
    case Compare(column, op, param) => column + " " + op + " $" + NatToString(param)
    case Fixed(text) => text
  }

  function RenderConditions(conditions: seq<Condition>): (texts: seq<string>)
    ensures |texts| == |conditions|
    ensures forall i :: 0 <= i < |conditions| ==> texts[i] == RenderCondition(conditions[i])
  {
    if conditions == [] then [] else [RenderCondition(conditions[0])] + RenderConditions(conditions[1..])
  }

  /** The `{values, where}` object the where-clause builders return. */
  datatype WhereClause = WhereClause(conditions: seq<Condition>, values: seq<Value>) {
    /** `where`: empty when there are no conditions, otherwise "WHERE "
        followed by the conditions joined by " AND ". */
    function Where(): (r: string)
      ensures r == "" <==> |conditions| == 0
      ensures |conditions| > 0 ==> "WHERE " + RenderCondition(conditions[0]) <= r
    {
      JoinEnds(RenderConditions(conditions), " AND ");
      if |conditions| == 0 then "" else "WHERE " + Join(RenderConditions(conditions), " AND ")
    }
  }

  /** The text of a clause of one, two or three conditions. */
  lemma WhereOfOne(w: WhereClause)
    requires |w.conditions| == 1
    ensures w.Where() == "WHERE " + RenderCondition(w.conditions[0])
  {
  }

  lemma WhereOfTwo(w: WhereClause)
    requires |w.conditions| == 2
    ensures w.Where() == "WHERE " + RenderCondition(w.conditions[0]) + " AND " + RenderCondition(w.conditions[1])
  {
    var parts := RenderConditions(w.conditions);
    assert parts == [parts[0], parts[1]];
    JoinTwo(parts[0], parts[1], " AND ");
  }

  lemma WhereOfThree(w: WhereClause)
    requires |w.conditions| == 3
    ensures w.Where() == "WHERE " + RenderCondition(w.conditions[0]) + " AND " + RenderCondition(w.conditions[1])
                         + " AND " + RenderCondition(w.conditions[2])
  {
    var parts := RenderConditions(w.conditions);
    assert parts == [parts[0], parts[1], parts[2]];
    JoinThree(parts[0], parts[1], parts[2], " AND ");
  }

  /** A condition with its value in place of the placeholder. */
  datatype Predicate =
    | Cmp(column: string, op: string, value: Value)
    | Lit(text: string)

  predicate ParamsWithin(conditions: seq<Condition>, n: nat) {
    forall i :: 0 <= i < |conditions| && conditions[i].Compare? ==> 1 <= conditions[i].param <= n
  }

  function InstantiateCondition(c: Condition, values: seq<Value>): Predicate
    requires c.Compare? ==> 1 <= c.param <= |values|
  {
    match c
    case Compare(column, op, param) => Cmp(column, op, values[param - 1])
    case Fixed(text) => Lit(text)
  }

  /** The predicates the database evaluates once `values` are bound. */
  function Instantiate(conditions: seq<Condition>, values: seq<Value>): (ps: seq<Predicate>)
    requires ParamsWithin(conditions, |values|)
    ensures |ps| == |conditions|
  {
    if conditions == [] then []
    else [InstantiateCondition(conditions[0], values)] + Instantiate(conditions[1..], values)
  }

  /** The number of placeholders the predicates need. */
  function ParamCount(ps: seq<Predicate>): nat {
    if ps == [] then 0 else (if ps[0].Cmp? then 1 else 0) + ParamCount(ps[1..])
  }

  /** The values of the comparisons, in order. */
  function BoundValues(ps: seq<Predicate>): (values: seq<Value>)
    ensures |values| == ParamCount(ps)
  {
    if ps == [] then []
    else (if ps[0].Cmp? then [ps[0].value] else []) + BoundValues(ps[1..])
  }

  /** The comparisons numbered in order, the first one `$(base + 1)`. */
  function Numbered(ps: seq<Predicate>, base: nat): (conditions: seq<Condition>)
    ensures |conditions| == |ps|
  {
    if ps == [] then []
    else if ps[0].Cmp? then
      [Compare(ps[0].column, ps[0].op, base + 1)] + Numbered(ps[1..], base + 1)
    else
      [Fixed(ps[0].text)] + Numbered(ps[1..], base)
  }

  /** The placeholders run from `base + 1` to `base + ParamCount(ps)`. */
  lemma {:induction false} NumberedRange(ps: seq<Predicate>, base: nat)
    ensures forall i :: 0 <= i < |ps| && Numbered(ps, base)[i].Compare? ==>
              base < Numbered(ps, base)[i].param <= base + ParamCount(ps)
    decreases |ps|
  {
    if ps != [] {
      NumberedRange(ps[1..], if ps[0].Cmp? then base + 1 else base);
    }
  }

  /** Every predicate becomes one condition; the comparison at position `i` is
      numbered after the comparisons before it, so placeholders run
      consecutively from `base + 1` in predicate order. */
  lemma {:induction false} NumberedAt(ps: seq<Predicate>, base: nat, i: nat)
    requires i < |ps|
    ensures Numbered(ps, base)[i] ==
              if ps[i].Cmp? then Compare(ps[i].column, ps[i].op, base + ParamCount(ps[..i]) + 1)
              else Fixed(ps[i].text)
    decreases i
  {
    if i > 0 {
      var n := if ps[0].Cmp? then base + 1 else base;
      NumberedAt(ps[1..], n, i - 1);
      assert ps[1..][..i - 1] == ps[1..i];
      assert ps[..i][1..] == ps[1..i];
    }
  }

  /** When every predicate is a comparison, the condition at index `i` uses
      placeholder `$(i + 1)` and the value at index `i` is its value. */
  lemma AllComparisonsNumbered(ps: seq<Predicate>, i: nat)
    requires forall j :: 0 <= j < |ps| ==> ps[j].Cmp?
    requires i < |ps|
    ensures Numbered(ps, 0)[i] == Compare(ps[i].column, ps[i].op, i + 1)
    ensures |BoundValues(ps)| == |ps| && BoundValues(ps)[i] == ps[i].value
  {
    NumberedAt(ps, 0, i);
    AllComparisonsCount(ps[..i]);
    AllComparisonsValues(ps, i);
  }

  /** The reference clause of comparisons only, element by element. */
  lemma AllComparisonsParameterized(ps: seq<Predicate>)
    requires forall j :: 0 <= j < |ps| ==> ps[j].Cmp?
    ensures var w := Parameterized(ps);
            && |w.conditions| == |w.values| == |ps|
            && forall i :: 0 <= i < |ps| ==>
                 w.conditions[i] == Compare(ps[i].column, ps[i].op, i + 1) && w.values[i] == ps[i].value
  {
    AllComparisonsCount(ps);
    forall i | 0 <= i < |ps|
      ensures Numbered(ps, 0)[i] == Compare(ps[i].column, ps[i].op, i + 1)
      ensures BoundValues(ps)[i] == ps[i].value
    {
      AllComparisonsNumbered(ps, i);
    }
  }

  lemma {:induction false} AllComparisonsCount(ps: seq<Predicate>)
    requires forall i :: 0 <= i < |ps| ==> ps[i].Cmp?
    ensures ParamCount(ps) == |ps|
  {
    if ps != [] {
      AllComparisonsCount(ps[1..]);
    }
  }

  lemma {:induction false} AllComparisonsValues(ps: seq<Predicate>, i: nat)
    requires forall j :: 0 <= j < |ps| ==> ps[j].Cmp?
    requires i < |ps|
    ensures |BoundValues(ps)| == |ps| && BoundValues(ps)[i] == ps[i].value
    decreases i
  {
    AllComparisonsCount(ps);
    if i > 0 {
      AllComparisonsValues(ps[1..], i - 1);
    }
  }

  /** Placeholders and values line up: with `prefix` already bound to
      `$1..$|prefix|`, binding the numbered conditions to `prefix` followed by
      the predicates' values gives back the predicates. */
  lemma {:induction false} BindNumbered(ps: seq<Predicate>, prefix: seq<Value>)
    ensures ParamsWithin(Numbered(ps, |prefix|), |prefix + BoundValues(ps)|)
    ensures Instantiate(Numbered(ps, |prefix|), prefix + BoundValues(ps)) == ps
    decreases |ps|
  {
    NumberedRange(ps, |prefix|);
    assert ParamsWithin(Numbered(ps, |prefix|), |prefix + BoundValues(ps)|);
    if ps != [] {
      var rest := ps[1..];
      var conds := Numbered(ps, |prefix|);
      var values := prefix + BoundValues(ps);
      var prefix' := if ps[0].Cmp? then prefix + [ps[0].value] else prefix;
      assert values == prefix' + BoundValues(rest);
      assert conds[1..] == Numbered(rest, |prefix'|);
      BindNumbered(rest, prefix');
      if ps[0].Cmp? {
        assert conds[0] == Compare(ps[0].column, ps[0].op, |prefix| + 1);
        assert values[|prefix|] == ps[0].value;
      }
      assert InstantiateCondition(conds[0], values) == ps[0];
    }
  }

  /** Numbering is compositional: the predicates after `ps` are numbered
      after the placeholders of `ps`. */
  lemma {:induction false} NumberedAppend(ps: seq<Predicate>, qs: seq<Predicate>, base: nat)
    ensures Numbered(ps + qs, base) == Numbered(ps, base) + Numbered(qs, base + ParamCount(ps))
    decreases |ps|
  {
    if ps == [] {
      assert ps + qs == qs;
    } else {
      var n := if ps[0].Cmp? then base + 1 else base;
      var c := if ps[0].Cmp? then Compare(ps[0].column, ps[0].op, base + 1) else Fixed(ps[0].text);
      assert (ps + qs)[0] == ps[0] && (ps + qs)[1..] == ps[1..] + qs;
      NumberedAppend(ps[1..], qs, n);
      calc {
        Numbered(ps + qs, base);
        [c] + Numbered(ps[1..] + qs, n);
        [c] + (Numbered(ps[1..], n) + Numbered(qs, n + ParamCount(ps[1..])));
        ([c] + Numbered(ps[1..], n)) + Numbered(qs, base + ParamCount(ps));
      }
    }
  }

  lemma {:induction false} BoundValuesAppend(ps: seq<Predicate>, qs: seq<Predicate>)
    ensures BoundValues(ps + qs) == BoundValues(ps) + BoundValues(qs)
    ensures ParamCount(ps + qs) == ParamCount(ps) + ParamCount(qs)
    decreases |ps|
  {
    if ps == [] {
      assert ps + qs == qs;
    } else {
      var v := if ps[0].Cmp? then [ps[0].value] else [];
      assert (ps + qs)[0] == ps[0] && (ps + qs)[1..] == ps[1..] + qs;
      BoundValuesAppend(ps[1..], qs);
      calc {
        BoundValues(ps + qs);
        v + BoundValues(ps[1..] + qs);
        v + (BoundValues(ps[1..]) + BoundValues(qs));
        (v + BoundValues(ps[1..])) + BoundValues(qs);
      }
    }
  }

  /** One step of a where-clause builder: appending a predicate appends its
      condition, numbered after the values already pushed, and its value. */
  lemma PushPredicate(done: seq<Predicate>, p: Predicate)
    ensures Numbered(done + [p], 0) == Numbered(done, 0)
              + [if p.Cmp? then Compare(p.column, p.op, |BoundValues(done)| + 1) else Fixed(p.text)]
    ensures BoundValues(done + [p]) == BoundValues(done) + (if p.Cmp? then [p.value] else [])
  {
    NumberedAppend(done, [p], 0);
    BoundValuesAppend(done, [p]);
    var n := ParamCount(done);
    assert [p][1..] == [];
    assert Numbered([p], n) == [if p.Cmp? then Compare(p.column, p.op, n + 1) else Fixed(p.text)];
    assert BoundValues([p]) == (if p.Cmp? then [p.value] else []);
  }

  /** The reference clause for a list of predicates: the comparisons
      numbered from `$1` in order, and their values in the same order. */
  function Parameterized(ps: seq<Predicate>): (w: WhereClause)
    ensures |w.conditions| == |ps| && |w.values| == ParamCount(ps)
  {
    WhereClause(Numbered(ps, 0), BoundValues(ps))
  }

  /** Placeholders and values line up: every placeholder of the reference
      clause has a value, binding the values gives back exactly the
      predicates, and there is a WHERE clause exactly when there is a
      predicate. */
  lemma ParameterizedInstantiates(ps: seq<Predicate>)
    ensures var w := Parameterized(ps);
            && ParamsWithin(w.conditions, |w.values|)
            && Instantiate(w.conditions, w.values) == ps
            && (w.Where() == "" <==> ps == [])
  {
    BindNumbered(ps, []);
    assert [] + BoundValues(ps) == BoundValues(ps);
  }
}
