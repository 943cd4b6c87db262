/** The token comparison of src/runner.ts: how much the candidate saves when some control counts are missing. */
module TokenComparison {
  import opened Wrappers

  function Sum(s: seq<real>): real {
    if s == [] then 0.0 else Sum(s[..|s| - 1]) + s[|s| - 1]
  }

  /** Missing counts are left out of the sum. */
  function Known(tokens: seq<Option<real>>): seq<real> {
    if tokens == [] then []
    else
      var rest := Known(tokens[..|tokens| - 1]);
      if tokens[|tokens| - 1].Some? then rest + [tokens[|tokens| - 1].value] else rest
  }

  function Reduction(control: real, candidate: real): real {
    if control == 0.0 then if candidate == 0.0 then 0.0 else -1.0 else (control - candidate) / control
  }

  predicate Usable(control: seq<Option<real>>, candidate: seq<Option<real>>) {
    && (forall k | 0 <= k < |candidate| :: candidate[k].Some? && candidate[k].value >= 0.0)
    && (forall k | 0 <= k < |control| :: control[k].Some? ==> control[k].value >= 0.0)
  }

  /** conservativeTokenReduction. */
  function Reported(control: seq<Option<real>>, candidate: seq<Option<real>>): real {
    if !Usable(control, candidate) then -1.0
    else if Sum(Known(control)) == 0.0 then -1.0
    else Reduction(Sum(Known(control)), Sum(Known(candidate)))
  }

  /** The counts that the missing ones could have had. */
  ghost predicate Fills(full: seq<real>, control: seq<Option<real>>) {
    && |full| == |control|
    && forall k | 0 <= k < |full| :: full[k] >= 0.0 && (control[k].Some? ==> full[k] == control[k].value)
  }

  lemma {:induction false} FilledSum(full: seq<real>, control: seq<Option<real>>)
    requires Fills(full, control)
    ensures 0.0 <= Sum(Known(control)) <= Sum(full)
    ensures (forall k | 0 <= k < |control| :: control[k].Some?) ==> Sum(Known(control)) == Sum(full)
    decreases |full|
  {
    if full != [] {
      var n := |full| - 1;
      FilledSum(full[..n], control[..n]);
      if control[n].Some? {
        assert Known(control)[..|Known(control)| - 1] == Known(control[..n]);
      }
    }
  }

  lemma {:induction false} KnownSum(tokens: seq<Option<real>>)
    requires forall k | 0 <= k < |tokens| :: tokens[k].Some? && tokens[k].value >= 0.0
    ensures Sum(Known(tokens)) >= 0.0
    decreases |tokens|
  {
    if tokens != [] {
      KnownSum(tokens[..|tokens| - 1]);
      assert Known(tokens)[..|Known(tokens)| - 1] == Known(tokens[..|tokens| - 1]);
    }
  }

  lemma Product(x: real, y: real, z: real)
    requires x <= y && z >= 0.0
    ensures x * z <= y * z
  {
  }

  /** A reduction is what it saves, divided out. */
  lemma ReductionTimes(control: real, candidate: real)
    requires control != 0.0
    ensures (1.0 - Reduction(control, candidate)) * control == candidate
  {
    var r := (control - candidate) / control;
    assert r * control == control - candidate;
  }

  /** The same use is a larger saving from a larger amount. */
  lemma LargerControl(low: real, high: real, candidate: real)
    requires 0.0 < low <= high && candidate >= 0.0
    ensures Reduction(low, candidate) <= Reduction(high, candidate)
  {
    hide Reduction;
    ReductionTimes(low, candidate);
    ReductionTimes(high, candidate);
    var a, b := 1.0 - Reduction(low, candidate), 1.0 - Reduction(high, candidate);
    if a < b {
      if a < 0.0 {
        NegativeProduct(a, low);
      } else {
        Product(low, high, a);
        StrictProduct(a, b, high);
      }
    }
  }

  lemma NegativeProduct(a: real, z: real)
    requires a < 0.0 && z > 0.0
    ensures a * z < 0.0
  {
  }

  lemma StrictProduct(a: real, b: real, z: real)
    requires a < b && z > 0.0
    ensures a * z < b * z
  {
    NegativeProduct(a - b, z);
  }

  /** Some control count is missing. */
  ghost predicate Missing(control: seq<Option<real>>) {
    exists k :: 0 <= k < |control| && control[k].None?
  }

  lemma LowerBound(control: seq<Option<real>>, candidate: seq<Option<real>>, full: seq<real>)
    requires Usable(control, candidate) && Fills(full, control)
    requires Sum(Known(control)) > 0.0 || !Missing(control) || Sum(Known(candidate)) == 0.0
    ensures Reported(control, candidate) <= Reduction(Sum(full), Sum(Known(candidate)))
  {
    hide Sum, Known;
    FilledSum(full, control);
    KnownSum(candidate);
    if Sum(Known(control)) > 0.0 {
      LargerControl(Sum(Known(control)), Sum(full), Sum(Known(candidate)));
    } else if Sum(full) > 0.0 {
      ReductionTimes(Sum(full), 0.0);
    }
  }

  lemma NotABound(control: seq<Option<real>>, candidate: seq<Option<real>>) returns (full: seq<real>)
    requires Usable(control, candidate)
    requires Sum(Known(control)) == 0.0 && Missing(control) && Sum(Known(candidate)) > 0.0
    ensures Fills(full, control) && Reduction(Sum(full), Sum(Known(candidate))) < Reported(control, candidate)
  {
    hide Sum, Known, Reduction;
    var used := Sum(Known(candidate));
    var amount := used / 3.0;
    assert used == 3.0 * amount && amount > 0.0;
    full := FilledTo(control, amount);
    var r := Reduction(amount, used);
    ReductionTimes(amount, used);
    SameFactor(1.0 - r, 3.0, amount);
  }

  lemma SameFactor(a: real, b: real, z: real)
    requires z > 0.0 && a * z == b * z
    ensures a == b
  {
    if a < b {
      StrictProduct(a, b, z);
    } else if b < a {
      StrictProduct(b, a, z);
    }
  }

  /** The value reported is a lower bound of the reduction for every filling of the missing counts exactly when some
      control tokens are known, or none are missing, or the candidate used none. */
  lemma LowerBoundIff(control: seq<Option<real>>, candidate: seq<Option<real>>)
    requires Usable(control, candidate)
    ensures (forall full | Fills(full, control) ::
               Reported(control, candidate) <= Reduction(Sum(full), Sum(Known(candidate))))
       <==> Sum(Known(control)) > 0.0 || !Missing(control) || Sum(Known(candidate)) == 0.0
  {
    hide Sum, Known, Reduction, Reported, Fills, Usable;
    if Sum(Known(control)) > 0.0 || !Missing(control) || Sum(Known(candidate)) == 0.0 {
      forall full | Fills(full, control)
        ensures Reported(control, candidate) <= Reduction(Sum(full), Sum(Known(candidate)))
      {
        LowerBound(control, candidate, full);
      }
    } else {
      SumsNotNegative(control, candidate);
      var full := NotABound(control, candidate);
      assert !(Reported(control, candidate) <= Reduction(Sum(full), Sum(Known(candidate))));
    }
  }

  lemma SumsNotNegative(control: seq<Option<real>>, candidate: seq<Option<real>>)
    requires Usable(control, candidate)
    ensures Sum(Known(control)) >= 0.0 && Sum(Known(candidate)) >= 0.0
  {
    hide Sum, Known;
    KnownSum(candidate);
    assert Fills(Filling(control, 0.0), control);
    FilledSum(Filling(control, 0.0), control);
  }

  function Filling(control: seq<Option<real>>, x: real): (full: seq<real>)
    ensures |full| == |control|
    ensures forall k | 0 <= k < |full| :: full[k] == if control[k].Some? then control[k].value else x
  {
    seq(|control|, k requires 0 <= k < |control| => if control[k].Some? then control[k].value else x)
  }

  /** A filling with the whole amount in one missing place. */
  lemma {:induction false} FilledTo(control: seq<Option<real>>, amount: real) returns (full: seq<real>)
    requires amount >= 0.0 && Missing(control) && Sum(Known(control)) == 0.0
    requires forall k | 0 <= k < |control| :: control[k].Some? ==> control[k].value >= 0.0
    ensures Fills(full, control) && Sum(full) == amount
    decreases |control|
  {
    var n := |control| - 1;
    var rest := control[..n];
    FilledSum(Filling(rest, 0.0), rest);
    if control[n].None? {
      full := Filling(rest, 0.0) + [amount];
      assert full[..n] == Filling(rest, 0.0);
      ZeroFilling(rest);
    } else {
      assert Known(control)[..|Known(control)| - 1] == Known(rest);
      var k :| 0 <= k < |control| && control[k].None?;
      assert rest[k].None?;
      var before := FilledTo(rest, amount);
      full := before + [control[n].value];
      assert full[..n] == before;
    }
  }

  lemma {:induction false} ZeroFilling(control: seq<Option<real>>)
    ensures Sum(Filling(control, 0.0)) == Sum(Known(control))
    decreases |control|
  {
    if control != [] {
      var n := |control| - 1;
      ZeroFilling(control[..n]);
      assert Filling(control, 0.0)[..n] == Filling(control[..n], 0.0);
      if control[n].Some? {
        assert Known(control)[..|Known(control)| - 1] == Known(control[..n]);
      }
    }
  }

  /** A positive value, which acceptance asks for, is always a real saving. */
  lemma PositiveIsReal(control: seq<Option<real>>, candidate: seq<Option<real>>, full: seq<real>)
    requires Reported(control, candidate) > 0.0 && Fills(full, control)
    ensures Usable(control, candidate)
    ensures 0.0 < Reported(control, candidate) <= Reduction(Sum(full), Sum(Known(candidate)))
  {
    hide Sum, Known;
    SumsNotNegative(control, candidate);
    LowerBound(control, candidate, full);
  }

  /** Some filling of the missing counts gives exactly the value reported, and none gives less. */
  ghost predicate IsLeast(control: seq<Option<real>>, candidate: seq<Option<real>>) {
    && (exists full :: Fills(full, control) && Reduction(Sum(full), Sum(Known(candidate))) == Reported(control, candidate))
    && (forall full | Fills(full, control) ::
          Reported(control, candidate) <= Reduction(Sum(full), Sum(Known(candidate))))
  }

  /** The value reported is the least reduction over all fillings, so the true one when nothing is missing, exactly when
      some control tokens are known, or none are missing and the candidate used some. */
  lemma LeastIff(control: seq<Option<real>>, candidate: seq<Option<real>>)
    requires Usable(control, candidate)
    ensures IsLeast(control, candidate)
       <==> Sum(Known(control)) > 0.0 || (!Missing(control) && Sum(Known(candidate)) > 0.0)
  {
    hide Sum, Known, Reduction, Fills, Missing, Usable;
    SumsNotNegative(control, candidate);
    LowerBoundIff(control, candidate);
    var least := Filling(control, 0.0);
    ZeroFilling(control);
    FillingFills(control, candidate);
    if Sum(Known(control)) > 0.0 || (!Missing(control) && Sum(Known(candidate)) > 0.0) {
      if Sum(Known(control)) == 0.0 {
        NothingSaved(Sum(Known(candidate)));
      }
      assert Reduction(Sum(least), Sum(Known(candidate))) == Reported(control, candidate);
    } else if Sum(Known(candidate)) == 0.0 {
      forall full | Fills(full, control)
        ensures Reduction(Sum(full), 0.0) != Reported(control, candidate)
      {
        FilledSum(full, control);
        NothingUsed(Sum(full));
      }
    }
  }

  lemma FillingFills(control: seq<Option<real>>, candidate: seq<Option<real>>)
    requires Usable(control, candidate)
    ensures Fills(Filling(control, 0.0), control)
  {
  }

  lemma NothingSaved(candidate: real)
    requires candidate > 0.0
    ensures Reduction(0.0, candidate) == -1.0
  {
  }

  lemma NothingUsed(control: real)
    requires control >= 0.0
    ensures Reduction(control, 0.0) == if control == 0.0 then 0.0 else 1.0
  {
    if control > 0.0 {
      ReductionTimes(control, 0.0);
      SameFactor(1.0 - Reduction(control, 0.0), 0.0, control);
    }
  }

  /** With every count known and some control tokens the value reported is the reduction. */
  lemma CompleteIsExact(control: seq<Option<real>>, candidate: seq<Option<real>>, full: seq<real>)
    requires Usable(control, candidate) && !Missing(control) && Fills(full, control) && Sum(full) > 0.0
    ensures Reported(control, candidate) == Reduction(Sum(full), Sum(Known(candidate)))
  {
    hide Sum, Known;
    FilledSum(full, control);
  }

  /** Unknown or negative counts of the candidate, and negative ones of the control, are the worst value. */
  lemma UnusableIsWorst(control: seq<Option<real>>, candidate: seq<Option<real>>, k: nat)
    requires (k < |candidate| && (candidate[k].None? || candidate[k].value < 0.0))
          || (k < |control| && control[k].Some? && control[k].value < 0.0)
    ensures Reported(control, candidate) == -1.0
  {
  }
}
