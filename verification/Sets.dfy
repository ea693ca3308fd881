/** Counting facts shared by the protocol models. */
module Sets {

  lemma {:induction false} Cardinality(t: set<nat>, u: set<nat>)
    requires t <= u
    ensures |t| <= |u| && (|t| == |u| ==> t == u)
    decreases u
  {
    if t != {} {
      var x :| x in t;
      Cardinality(t - {x}, u - {x});
      assert t == t - {x} + {x} && u == u - {x} + {x};
    }
  }

  lemma AddOne(t: set<nat>, x: nat)
    ensures |t + {x}| == |t| + if x in t then 0 else 1
  {
    if x in t {
      assert t + {x} == t;
    }
  }
}
