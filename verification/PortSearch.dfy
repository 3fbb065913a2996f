/** The search for an even local port in RtpSocket.cpp, when the kernel's first choice is odd. */
module PortSearch {
  import opened Bits
  import opened Wrappers

  const ATTEMPTS := 1000
  const LOWEST: U16 := 1024

  /** The port after `k` steps of the walk that starts next to the odd port `p`. */
  function Candidate(p: nat, k: nat): U16 {
    ToU16(p + 1 + 2 * (p * k))
  }

  /** The candidates a bind is tried on during the first `n` steps. */
  function Usable(p: nat, n: nat): seq<U16> {
    if n == 0 then []
    else Usable(p, n - 1) + (if Candidate(p, n) >= LOWEST then [Candidate(p, n)] else [])
  }

  /** The walk: it starts at the port after `p`, and each step adds twice `p` modulo 2^16. */
  lemma Step(p: nat, k: nat)
    ensures Candidate(p, 0) == (p + 1) % 0x1_0000
    ensures Candidate(p, k + 1) == (Candidate(p, k) + 2 * p) % 0x1_0000
    ensures Candidate(p, k + 1) == ToU16(Candidate(p, k) + ToU16(Shl(p, 1)))
  {
    var a := p + 1 + 2 * (p * k);
    assert p * (k + 1) == p * k + p;
    assert Shl(p, 1) == 2 * p by { TwiceAsShift(p); }
    WrapSum(a, 2 * p);
  }

  lemma TwiceAsShift(p: nat)
    ensures Shl(p, 1) == 2 * p
  {
    assert Pow2(1) == 2;
  }

  lemma WrapSum(a: nat, b: nat)
    ensures ToU16(ToU16(a) + b) == ToU16(a + b)
    ensures ToU16(ToU16(a) + ToU16(b)) == ToU16(a + b)
  {
    var q, r := a / 0x1_0000, b / 0x1_0000;
    var t := ToU16(a) + ToU16(b);
    ModUnique(ToU16(a) + b, 0x1_0000, r + t / 0x1_0000, ToU16(t));
    ModUnique(a + b, 0x1_0000, q + r + t / 0x1_0000, ToU16(t));
  }

  // ----- Odd numbers are invertible modulo a power of two -----

  /** An odd factor can be cancelled from a multiple of 2^n. */
  lemma {:induction false} OddCancels(p: nat, d: nat, n: nat, q: nat) returns (c: nat)
    requires p % 2 == 1 && p * d == q * Pow2(n)
    ensures d == c * Pow2(n)
  {
    if n == 0 {
      c := d;
    } else {
      var h := Pow2(n - 1);
      assert q * Pow2(n) == 2 * (q * h);
      OddTimes(p, d);
      assert p * d == 2 * (p * (d / 2));
      c := OddCancels(p, d / 2, n - 1, q);
      assert c * Pow2(n) == 2 * (c * h);
    }
  }

  lemma OddTimes(p: nat, d: nat)
    requires p % 2 == 1 && p * d % 2 == 0
    ensures d % 2 == 0 && d == 2 * (d / 2)
  {
    var h := p / 2;
    assert p * d == 2 * (h * d) + d;
  }

  lemma EvenFactor(x: nat, h: nat)
    requires x % 2 == 0
    ensures x * h == x / 2 * (2 * h)
  {
    var y := x / 2;
    assert x == 2 * y;
    assert (2 * y) * h == y * (2 * h);
  }

  lemma {:induction false} OddInverse(p: nat, n: nat) returns (inverse: nat, t: nat)
    requires p % 2 == 1
    ensures p * inverse == 1 + t * Pow2(n)
  {
    if n == 0 {
      inverse, t := 1, p - 1;
    } else {
      var i, s := OddInverse(p, n - 1);
      inverse, t := LiftInverse(p, i, s, Pow2(n - 1));
    }
  }

  /** From an inverse modulo `h` to one modulo 2h. */
  lemma LiftInverse(p: nat, i: nat, s: nat, h: nat) returns (inverse: nat, t: nat)
    requires p % 2 == 1 && p * i == 1 + s * h
    ensures p * inverse == 1 + t * (2 * h)
  {
    if s % 2 == 0 {
      EvenFactor(s, h);
      inverse, t := i, s / 2;
    } else {
      EvenFactor(s + p, h);
      Sums(p, i, s, h);
      inverse, t := i + h, (s + p) / 2;
    }
  }

  lemma Sums(p: nat, i: nat, s: nat, h: nat)
    ensures p * (i + h) == p * i + p * h && (s + p) * h == s * h + p * h
  {}

  // ----- The walk visits every even port once in 2^15 steps -----

  lemma WalkIsInjective(p: U16, j: nat, k: nat)
    requires p % 2 == 1 && j < k < j + 0x8000
    ensures Candidate(p, j) != Candidate(p, k)
  {
    if Candidate(p, j) == Candidate(p, k) {
      var d := k - j;
      assert p * k == p * j + p * d;
      var q := SameResidue(p + 1 + 2 * (p * j), 2 * (p * d));
      assert p * d == q * 0x8000;
      LargePowers();
      var c := OddCancels(p, d, 15, q);
      assert false;
    }
  }

  /** Adding `b` leaves the residue unchanged only if `b` is a multiple of the modulus. */
  lemma SameResidue(a: nat, b: nat) returns (q: nat)
    requires ToU16(a) == ToU16(a + b)
    ensures b == q * 0x1_0000
  {
    var x, y := (a + b) / 0x1_0000, a / 0x1_0000;
    assert a + b == 0x1_0000 * x + ToU16(a + b) && a == 0x1_0000 * y + ToU16(a);
    assert b == 0x1_0000 * (x - y);
    q := x - y;
  }

  /** From an odd port, the first 2^15 candidates are the even ports, each exactly once. */
  lemma WalkIsPermutation(p: U16, port: U16)
    requires p % 2 == 1 && port % 2 == 0
    ensures exists k :: 0 <= k < 0x8000 && Candidate(p, k) == port
                        && forall j :: 0 <= j < 0x8000 && Candidate(p, j) == port ==> j == k
  {
    var k := StepOf(p, port);
    forall j | 0 <= j < 0x8000 && Candidate(p, j) == port
      ensures j == k
    {
      if j < k { WalkIsInjective(p, j, k); }
      if k < j { WalkIsInjective(p, k, j); }
    }
  }

  /** The step that reaches a given even port: the inverse of p times the distance. */
  lemma StepOf(p: U16, port: U16) returns (k: nat)
    requires p % 2 == 1 && port % 2 == 0
    ensures k < 0x8000 && Candidate(p, k) == port
  {
    LargePowers();
    hide Pow2;
    var inverse, t := OddInverse(p, 15);
    var distance := (port + 0x1_0000 - (p + 1)) / 2;
    var m := inverse * distance;
    k := m % 0x8000;
    var u := m / 0x8000;
    // p * k is the distance plus a multiple of 2^15.
    InverseProduct(p, inverse, t, distance);
    SplitProduct(p, m, u, k);
    WrapDistance(p * k, distance, t * distance - p * u, p, port);
  }

  lemma InverseProduct(p: nat, inverse: nat, t: nat, distance: nat)
    requires p * inverse == 1 + t * 0x8000
    ensures p * (inverse * distance) == distance + 0x8000 * (t * distance)
  {
    assert p * (inverse * distance) == (p * inverse) * distance;
    var td := t * distance;
    assert (1 + t * 0x8000) * distance == distance + (t * 0x8000) * distance;
    assert (t * 0x8000) * distance == 0x8000 * td;
  }

  lemma SplitProduct(p: nat, m: nat, u: nat, k: nat)
    requires m == 0x8000 * u + k
    ensures p * m == 0x8000 * (p * u) + p * k
  {
    assert p * (0x8000 * u) == 0x8000 * (p * u);
  }

  lemma WrapDistance(pk: nat, distance: nat, x: int, p: U16, port: U16)
    requires pk == distance + 0x8000 * x && 2 * distance == port + 0x1_0000 - (p + 1)
    ensures ToU16(p + 1 + 2 * pk) == port
  {
    ModUnique(p + 1 + 2 * pk, 0x1_0000, 1 + x, port);
  }

  // ----- What the search tries -----

  predicate ReachedBy(p: nat, n: nat, port: U16) {
    exists k :: 1 <= k <= n && Candidate(p, k) == port
  }

  /** Every port tried is even and not privileged. */
  lemma {:induction false} UsablePorts(p: U16, n: nat)
    requires p % 2 == 1
    ensures forall i :: 0 <= i < |Usable(p, n)| ==>
              Usable(p, n)[i] % 2 == 0 && Usable(p, n)[i] >= 1024 && ReachedBy(p, n, Usable(p, n)[i])
  {
    if n > 0 {
      UsablePorts(p, n - 1);
      CandidateIsEven(p, n);
      forall i | 0 <= i < |Usable(p, n)|
        ensures ReachedBy(p, n, Usable(p, n)[i])
      {
        if i < |Usable(p, n - 1)| {
          assert Usable(p, n)[i] == Usable(p, n - 1)[i];
          assert ReachedBy(p, n - 1, Usable(p, n - 1)[i]);
        } else {
          assert Usable(p, n)[i] == Candidate(p, n);
        }
      }
    }
  }

  /** And every candidate from 1024 on is tried, the earlier ones first. */
  lemma {:induction false} UsableIsComplete(p: nat, n: nat, k: nat)
    requires 1 <= k <= n
    ensures Candidate(p, k) >= 1024 ==> Candidate(p, k) in Usable(p, n)
    ensures Usable(p, k) <= Usable(p, n)
  {
    if k < n { UsableIsComplete(p, n - 1, k); }
  }

  lemma CandidateIsEven(p: U16, k: nat)
    requires p % 2 == 1
    ensures Candidate(p, k) % 2 == 0
  {
    EvenResidue((p + 1) / 2 + p * k);
  }

  lemma EvenResidue(h: nat)
    ensures ToU16(2 * h) % 2 == 0
  {
    assert 2 * h == 0x1_0000 * (2 * h / 0x1_0000) + ToU16(2 * h);
  }

  /** No port is tried twice within 2^15 steps. */
  lemma {:induction false} UsableDistinct(p: U16, n: nat)
    requires p % 2 == 1 && n < 0x8000
    ensures forall i, j :: 0 <= i < j < |Usable(p, n)| ==> Usable(p, n)[i] != Usable(p, n)[j]
  {
    if n > 0 {
      UsableDistinct(p, n - 1);
      var u := Usable(p, n - 1);
      UsablePorts(p, n - 1);
      forall i | 0 <= i < |u|
        ensures u[i] != Candidate(p, n)
      {
        assert ReachedBy(p, n - 1, u[i]);
        var k :| 1 <= k <= n - 1 && Candidate(p, k) == u[i];
        WalkIsInjective(p, k, n);
      }
    }
  }

  /** The half of each low candidate skipped during the first `n` steps. */
  function Skipped(p: nat, n: nat): set<nat> {
    if n == 0 then {}
    else if Candidate(p, n) < LOWEST then Skipped(p, n - 1) + {Half(p, n)}
    else Skipped(p, n - 1)
  }

  function Half(p: nat, k: nat): nat {
    Candidate(p, k) / 2
  }

  /** The numbers below m. */
  function Below(m: nat): (s: set<nat>)
    ensures |s| == m
    ensures forall h: nat :: h in s <==> h < m
  {
    if m == 0 then {} else Below(m - 1) + {m - 1}
  }

  predicate HalfReachedBy(p: nat, n: nat, h: nat) {
    exists k :: 1 <= k <= n && Half(p, k) == h
  }

  lemma {:induction false} SkippedAreDistinct(p: U16, n: nat)
    requires p % 2 == 1 && n < 0x8000
    ensures |Usable(p, n)| + |Skipped(p, n)| == n
    ensures forall h :: h in Skipped(p, n) ==> h < 512
    ensures forall h :: h in Skipped(p, n) ==> HalfReachedBy(p, n, h)
  {
    if n > 0 {
      SkippedAreDistinct(p, n - 1);
      var s := Skipped(p, n - 1);
      if Candidate(p, n) < LOWEST && Half(p, n) in s {
        assert HalfReachedBy(p, n - 1, Half(p, n));
        var k :| 1 <= k <= n - 1 && Half(p, k) == Half(p, n);
        CandidateIsEven(p, k);
        CandidateIsEven(p, n);
        WalkIsInjective(p, k, n);
        assert false;
      }
      forall h | h in Skipped(p, n)
        ensures HalfReachedBy(p, n, h)
      {
        if h in s {
          assert HalfReachedBy(p, n - 1, h);
        } else {
          assert Half(p, n) == h;
        }
      }
    }
  }

  /** At most 512 steps are skips, so `n` steps give at least `n - 512` attempts. */
  lemma FewSkips(p: U16, n: nat)
    requires p % 2 == 1 && n < 0x8000
    ensures n <= |Usable(p, n)| + 512
  {
    hide Below;
    SkippedAreDistinct(p, n);
    SubsetSize(Skipped(p, n), Below(512));
  }

  lemma {:induction false} SubsetSize(a: set<nat>, b: set<nat>)
    requires a <= b
    ensures |a| <= |b|
  {
    if a != {} {
      var x :| x in a;
      SubsetSize(a - {x}, b - {x});
    }
  }

  /** `create`: `kernelPort` is the port the first bind returned, None if that fails; `reopened` says
      whether the second socket could be opened, and `binds[i]` whether the i-th further bind succeeds.
    */
  method Create(kernelPort: Option<U16>, reopened: bool, binds: seq<bool>)
    returns (result: int, tried: seq<U16>, steps: nat)
    requires |binds| == 1000
    ensures kernelPort == None ==> result == -1 && tried == []
    ensures kernelPort.Some? && kernelPort.value % 2 == 0 ==> result == kernelPort.value && tried == []
    ensures kernelPort.Some? && kernelPort.value % 2 == 1 && !reopened ==> result == -1 && tried == []
    ensures kernelPort.Some? && kernelPort.value % 2 == 1 && reopened ==>
              && tried == Usable(kernelPort.value, steps)
              && steps <= |tried| + 512
              && |tried| <= 1000
              && (forall i :: 0 <= i < |tried| - 1 ==> !binds[i])
              && (if result == -1 then |tried| == 1000 && !binds[999]
                  else tried != [] && binds[|tried| - 1] && result == tried[|tried| - 1])
    ensures result != -1 ==> result % 2 == 0
    ensures result != -1 && tried != [] ==> 1024 <= result < 0x1_0000
  {
    if kernelPort == None {
      return -1, [], 0;
    }
    var port := kernelPort.value;
    tried, steps := [], 0;
    LowBit(port);
    if And(port, 1) == 0 {
      return port, tried, steps;
    }
    if reopened {
      result, tried, steps := Search(port, binds);
      return;
    }
    result := -1;
  }

  /** The walk of `create` from an odd port. */
  method Search(kernelPort: U16, binds: seq<bool>) returns (result: int, tried: seq<U16>, steps: nat)
    requires kernelPort % 2 == 1 && |binds| == 1000
    ensures tried == Usable(kernelPort, steps) && steps <= |tried| + 512 && |tried| <= 1000
    ensures forall i :: 0 <= i < |tried| ==> tried[i] >= 1024 && tried[i] % 2 == 0
    ensures forall i, j :: 0 <= i < j < |tried| ==> tried[i] != tried[j]
    ensures forall k :: 1 <= k <= steps && Candidate(kernelPort, k) >= 1024 ==> Candidate(kernelPort, k) in tried
    ensures forall i :: 0 <= i < |tried| - 1 ==> !binds[i]
    ensures if result == -1 then |tried| == 1000 && !binds[999]
            else tried != [] && binds[|tried| - 1] && result == tried[|tried| - 1] && result % 2 == 0
  {
    var port := kernelPort;
    tried, steps := [], 0;
    var delta := ToU16(Shl(port, 1));
    port := ToU16(port + 1);
    Step(kernelPort, 0);
    for i := 0 to ATTEMPTS
      invariant port == Candidate(kernelPort, steps)
      invariant tried == Usable(kernelPort, steps)
      invariant |tried| == i && steps <= i + 512
      invariant forall j :: 0 <= j < i ==> !binds[j]
    {
      Step(kernelPort, steps);
      port := ToU16(port + delta);
      steps := steps + 1;
      while port < LOWEST
        invariant steps >= 1 && port == Candidate(kernelPort, steps)
        invariant tried == Usable(kernelPort, steps - 1)
        invariant steps - 1 <= i + 512
        decreases i + 512 - steps
      {
        FewSkips(kernelPort, steps);
        Step(kernelPort, steps);
        port := ToU16(port + delta);
        steps := steps + 1;
      }
      tried := tried + [port];
      FewSkips(kernelPort, steps);
      CandidateIsEven(kernelPort, steps);
      if binds[i] {
        AttemptsAreFreshEvenPorts(kernelPort, steps);
        return port, tried, steps;
      }
    }
    AttemptsAreFreshEvenPorts(kernelPort, steps);
    result := -1;
  }

  lemma LowBit(port: U16)
    ensures And(port, 1) == port % 2
  {
    AndMask(port, 1, 2);
  }

  /** What a caller may rely on: every attempt of every search is a fresh, even, unprivileged port. */
  lemma AttemptsAreFreshEvenPorts(p: U16, steps: nat)
    requires p % 2 == 1 && |Usable(p, steps)| <= 1000 && steps <= |Usable(p, steps)| + 512
    ensures var tried := Usable(p, steps);
            && (forall i :: 0 <= i < |tried| ==> tried[i] % 2 == 0 && tried[i] >= 1024)
            && (forall i, j :: 0 <= i < j < |tried| ==> tried[i] != tried[j])
            && (forall k :: 1 <= k <= steps && Candidate(p, k) >= 1024 ==> Candidate(p, k) in tried)
  {
    UsablePorts(p, steps);
    UsableDistinct(p, steps);
    forall k | 1 <= k <= steps && Candidate(p, k) >= 1024
      ensures Candidate(p, k) in Usable(p, steps)
    {
      UsableIsComplete(p, steps, k);
    }
  }
}
