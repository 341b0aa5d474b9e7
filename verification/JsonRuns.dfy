/**
 Runs of the machine of module JsonMachine: how they fit together, where a value may be read, and
 what reading it leaves.
 */
module JsonRuns {
  import opened Bson
  import opened BsonBuilding
  import opened Json
  import opened JsonMachine

  lemma {:induction false} RunConcat(st: State, a: seq<Event>, b: seq<Event>, x: Platform)
    ensures var first := Run(st, a, x);
            Run(st, a + b, x) == if first.go then Run(first.state, b, x) else first
    decreases |a|
  {
    if a == [] {
      assert a + b == b;
    } else {
      assert (a + b)[0] == a[0] && (a + b)[1..] == a[1..] + b;
      var first := Step(st, a[0], x);
      if first.go {
        RunConcat(first.state, a[1..], b, x);
      }
    }
  }

  lemma RunOne(st: State, e: Event, x: Platform)
    ensures Run(st, [e], x) == Step(st, e, x)
  {
    var first := Step(st, e, x);
    assert [e][1..] == [];
    if first.go {
      assert Run(first.state, [], x) == first;
    }
  }

  lemma RunNothing(st: State, x: Platform)
    ensures Run(st, [], x) == Outcome(true, st)
  {
  }

  lemma RunThen(st: State, e: Event, rest: seq<Event>, x: Platform)
    ensures var first := Step(st, e, x);
            Run(st, [e] + rest, x) == if first.go then Run(first.state, rest, x) else first
  {
    RunOne(st, e, x);
    RunConcat(st, [e], rest, x);
  }

  // Where a value may be read, and what reading it leaves.

  /** A value may come next: as an array element, or under a pending key. */
  predicate Ready(st: State)
  {
    && st.readState == Regular && st.doc.stack.Open? && Height(st.doc.stack) <= STACK_MAX
    && (st.doc.stack.top.isArray || st.key.Some?)
  }

  /** The pending key once n callbacks have fixed it. */
  function KeyAfter(st: State, n: nat): string
    requires Ready(st) && n >= 1
  {
    if st.doc.stack.top.isArray then IndexKey(st.doc.stack.top.next + n - 1) else st.key.value
  }

  function WithField(st: State, n: nat, v: Value): Building
    requires Ready(st) && n >= 1
  {
    AddFields(Skip(st.doc, n), [Field(KeyAfter(st, n), v)])
  }

  /** Reading went on, and left the document like `expected`. */
  predicate Continues(r: Outcome, expected: Building)
  {
    r.go && r.state.readState == Regular && r.state.key.Some? && r.state.doc == expected
  }

  /** Reading stopped short of the end of the document. */
  predicate Refused(r: Outcome)
  {
    !r.go && r.state.readState != Done
  }
}
