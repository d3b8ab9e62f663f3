/** Sizes of finite sets of numbers. */
module FiniteSets {

  predicate Between(low: nat, z: nat, high: nat) {
    low <= z < high
  }

  function Interval(low: nat, high: nat): (s: set<nat>)
    ensures forall z: nat :: z in s <==> low <= z < high
  {
    set z: nat | z < high && Between(low, z, high)
  }

  lemma {:induction false} IntervalSize(low: nat, high: nat)
    requires low <= high
    ensures |Interval(low, high)| == high - low
    decreases high
  {
    if low < high {
      IntervalSize(low, high - 1);
      assert Interval(low, high) == Interval(low, high - 1) + {high - 1};
    }
  }

  lemma {:induction false} SubsetSize<T>(a: set<T>, b: set<T>)
    requires a <= b
    ensures |a| <= |b|
  {
    if a != {} {
      var x :| x in a;
      SubsetSize(a - {x}, b - {x});
    }
  }

  lemma LowestExists(s: set<nat>)
    requires s != {}
    ensures exists z :: IsLeast(s, z)
  {
    var z :| z in s;
    var rest := s - {z};
    if rest != {} {
      LowestExists(rest);
      var y :| IsLeast(rest, y);
      assert s == rest + {z};
      assert IsLeast(s, if y < z then y else z);
    } else {
      assert s == {z};
      assert IsLeast(s, z);
    }
  }

  ghost predicate IsLeast(s: set<nat>, z: nat) {
    z in s && forall y | y in s :: z <= y
  }

  /** The least element of a set. */
  ghost function Least(s: set<nat>): (z: nat)
    requires s != {}
    ensures IsLeast(s, z)
  {
    LowestExists(s);
    var z :| IsLeast(s, z);
    z
  }
}
