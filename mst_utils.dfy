/**
 * Parameters of Chazelle's MST algorithm (MST/MSTUtils.cpp): the Ackermann-like
 * function S, the search for the parameter t and the target sizes of the nodes
 * of the hierarchy.  The source computes in `uint32_t`; here arithmetic is on
 * unbounded naturals.
 */
module MSTUtils {
  import opened Wrappers

  function Cube(x: nat): nat { x * x * x }

  lemma CubeBounds(x: nat)
    ensures x >= 1 ==> Cube(x) >= x
    ensures x >= 2 ==> Cube(x) >= 8
  {
    if x >= 1 {
      assert x * x >= x;
      assert x * x * x >= x * x;
    }
    if x >= 2 {
      assert x * x >= 4;
      assert x * x * x >= 4 * x;
    }
  }

  /** S(i, j): out_of_range when an argument is zero; S(1, j) = 2j, S(i, 1) = 2,
      otherwise S(i, j - 1) * S(i - 1, S(i, j - 1)). */
  function S(i: nat, j: nat): (r: Result<nat>)
    ensures r.Success? <==> i >= 1 && j >= 1
    ensures r.Success? ==> r.value >= 2
    decreases i, j
  {
    if i == 0 || j == 0 then Failure(OutOfRange("i and j must be > 0"))
    else if i == 1 then Success(2 * j)
    else if j == 1 then Success(2)
    else
      var previous := S(i, j - 1);
      var nested := S(i - 1, previous.value);
      Success(previous.value * nested.value)
  }

  lemma SFirstRow(j: nat)
    requires j >= 1
    ensures S(1, j) == Success(2 * j)
  {
  }

  lemma SFirstColumn(i: nat)
    requires i >= 2
    ensures S(i, 1) == Success(2)
  {
  }

  /** The two compile-time checks of the source. */
  lemma SStaticChecks()
    ensures S(1, 5) == Success(10)
    ensures S(100500, 1) == Success(2)
  {
  }

  /** Beyond the first column S grows with i: S(i, j) > i for j >= 2. */
  lemma {:induction false} SGrowsWithRow(i: nat, j: nat)
    requires i >= 1 && j >= 2
    ensures S(i, j).Success? && S(i, j).value >= i + 1
    decreases i, j
  {
    if i > 1 {
      var previous := S(i, j - 1);
      assert previous.value >= 2;
      SGrowsWithRow(i - 1, previous.value);
      assert S(i, j).value == previous.value * S(i - 1, previous.value).value;
    }
  }

  const Two32: nat := 0x1_0000_0000

  /** S as the source computes it, in `uint32_t`: products and doublings wrap
      modulo 2^32, and a value that wraps to 0 makes the nested call throw. */
  function SAsWritten(i: nat, j: nat): (r: Result<nat>)
    requires i < Two32 && j < Two32
    ensures r.Success? ==> r.value < Two32
    ensures i == 0 || j == 0 ==> r.Failure?
    decreases i, j
  {
    if i == 0 || j == 0 then Failure(OutOfRange("i and j must be > 0"))
    else if i == 1 then Success((2 * j) % Two32)
    else if j == 1 then Success(2)
    else
      var previous := SAsWritten(i, j - 1);
      if previous.Failure? then previous
      else
        var nested := SAsWritten(i - 1, previous.value);
        if nested.Failure? then nested
        else Success((previous.value * nested.value) % Two32)
  }

  lemma SAsWrittenFirstRow(j: nat)
    requires 1 <= j < Two32 / 2
    ensures SAsWritten(1, j) == Success(2 * j)
  {
  }

  /** One entry of the second row from the one before it, in 32 bits and
      without bound. */
  lemma SecondRowStep(j: nat, p: nat)
    requires 2 <= j < Two32 && 1 <= p < Two32 && SAsWritten(2, j - 1) == Success(p)
    ensures SAsWritten(2, j) == Success((p * ((2 * p) % Two32)) % Two32)
  {
  }

  lemma SecondRowStepUnbounded(j: nat, p: nat)
    requires 2 <= j && S(2, j - 1) == Success(p)
    ensures S(2, j) == Success(p * (2 * p))
  {
  }

  /** In 32 bits the second row reaches 2^31 at j = 5 and wraps to 0 at j = 6,
      where the unbounded table holds 2^63. */
  lemma SAsWrittenWrapsToZero()
    ensures SAsWritten(2, 5) == Success(0x8000_0000) == S(2, 5)
    ensures SAsWritten(2, 6) == Success(0)
    ensures S(2, 6) == Success(0x8000_0000_0000_0000)
  {
    SecondRowStep(2, 2);
    SecondRowStep(3, 8);
    SecondRowStep(4, 128);
    SecondRowStep(5, 0x8000);
    SecondRowStep(6, 0x8000_0000);
    SecondRowStepUnbounded(2, 2);
    SecondRowStepUnbounded(3, 8);
    SecondRowStepUnbounded(4, 128);
    SecondRowStepUnbounded(5, 0x8000);
    SecondRowStepUnbounded(6, 0x8000_0000);
  }

  /** From j = 7 on, every entry of the second row throws in 32 bits: the
      recursion reaches S(1, S(2, 6)) = S(1, 0). */
  lemma {:induction false} SAsWrittenSecondRowThrows(j: nat)
    requires 7 <= j < Two32
    ensures SAsWritten(2, j).Failure?
    decreases j
  {
    if j == 7 {
      SAsWrittenWrapsToZero();
      assert SAsWritten(1, 0).Failure?;
    } else {
      SAsWrittenSecondRowThrows(j - 1);
    }
  }

  /** The third row throws from j = 3 on: S(3, 3) needs S(2, S(3, 2)) = S(2, 16). */
  lemma {:induction false} SAsWrittenThirdRowThrows(j: nat)
    requires 3 <= j < Two32
    ensures SAsWritten(3, j).Failure?
    decreases j
  {
    if j == 3 {
      assert SAsWritten(3, 2) == Success(16) by {
        SecondRowStep(2, 2);
      }
      SAsWrittenSecondRowThrows(16);
    } else {
      SAsWrittenThirdRowThrows(j - 1);
    }
  }

  /** `FindParamT` as written, for d = 6 and 2000 vertices: the loop passes
      t = 1 (12^3 = 1728 < 2000) and t = 2 (the wrapped 0), and then S(3, 6)
      throws.  With the unbounded table the search stops at t = 2. */
  lemma FindParamTAsWrittenThrows()
    ensures SAsWritten(1, 6) == Success(12) && Cube(12) < 2000
    ensures SAsWritten(2, 6) == Success(0) && Cube(0) < 2000
    ensures SAsWritten(3, 6).Failure?
    ensures Cube(S(1, 6).value) < 2000 <= Cube(S(2, 6).value)
  {
    SAsWrittenFirstRow(6);
    SAsWrittenWrapsToZero();
    SAsWrittenThirdRowThrows(6);
    CubeBounds(S(2, 6).value);
  }

  /** `FindParamT`: 1 when d == 1, otherwise the least t >= 1 with
      vertexCount <= S(t, d)^3; S(1, 0) throws when d == 0.
      The graph is represented by its vertex count. */
  method FindParamT(vertexCount: nat, d: nat) returns (r: Result<nat>)
    ensures d == 0 <==> r.Failure?
    ensures d == 1 ==> r == Success(1)
    ensures d >= 2 ==> r.Success? && r.value >= 1
    ensures d >= 2 ==> vertexCount <= Cube(S(r.value, d).value)
    ensures d >= 2 ==> forall t :: 1 <= t < r.value ==> vertexCount > Cube(S(t, d).value)
  {
    if d == 1 {
      return Success(1);
    }
    if d == 0 {
      return S(1, d);
    }
    var result: nat := 1;
    while vertexCount > Cube(S(result, d).value)
      invariant result >= 1
      invariant forall t :: 1 <= t < result ==> vertexCount > Cube(S(t, d).value)
      decreases vertexCount - result
    {
      SGrowsWithRow(result, d);
      CubeBounds(S(result, d).value);
      result := result + 1;
    }
    return Success(result);
  }

  /** `CalculateTargetSize`: S(t, 1)^3 for height 1, otherwise S(t - 1, S(t, h - 1))^3.
      A height of 0 wraps to 2^32 - 1 as in the source's unsigned subtraction. */
  function CalculateTargetSize(t: nat, nodeHeight: nat): (r: Result<nat>)
    ensures r.Success? <==> (if nodeHeight == 1 then t >= 1 else t >= 2)
    ensures r.Success? ==> r.value >= 8
    ensures nodeHeight == 1 && t >= 1 ==> r == Success(8)
  {
    if nodeHeight == 1 then
      var s := S(t, 1);
      if s.Failure? then Failure(s.error)
      else
        assert s.value == 2;
        CubeBounds(s.value);
        Success(Cube(s.value))
    else
      var below := if nodeHeight == 0 then 0xFFFF_FFFF else nodeHeight - 1;
      var inner := S(t, below);
      if inner.Failure? then Failure(inner.error)
      else
        var outer := S(t - 1, inner.value);
        if outer.Failure? then Failure(outer.error)
        else
          CubeBounds(outer.value);
          Success(Cube(outer.value))
  }
}
