/** Ordered sets of integers. */
module IntSets {
  ghost predicate StrictlyIncreasing(s: seq<int>) {
    forall i, j :: 0 <= i < j < |s| ==> s[i] < s[j]
  }

  lemma HasMember(values: set<int>)
    ensures values == {} || exists v :: v in values
  {
    assert (forall v :: v !in values) ==> values == {};
  }

  lemma {:induction false} LeastInt(values: set<int>) returns (least: int)
    requires values != {}
    ensures least in values && forall v :: v in values ==> least <= v
    decreases |values|
  {
    HasMember(values);
    least :| least in values;
    if v :| v in values && v < least {
      var rest := values - {least};
      assert v in rest;
      var x := LeastInt(rest);
      assert forall w :: w in values ==> w == least || w in rest;
      least := x;
    }
  }

  /** An ordered set is walked from its least element on. */
  method Ascending(values: set<int>) returns (s: seq<int>)
    ensures StrictlyIncreasing(s) && |s| == |values|
    ensures forall v :: v in s <==> v in values
  {
    s := [];
    var ahead := values;
    while ahead != {}
      invariant ahead <= values && |s| + |ahead| == |values|
      invariant forall v :: v in s <==> v in values && v !in ahead
      invariant StrictlyIncreasing(s) && forall v, w :: v in s && w in ahead ==> v < w
    {
      ghost var least := LeastInt(ahead);
      var v :| v in ahead && forall w :: w in ahead ==> v <= w;
      assert forall i :: 0 <= i < |s| ==> s[i] in s;
      s, ahead := s + [v], ahead - {v};
    }
  }
}
