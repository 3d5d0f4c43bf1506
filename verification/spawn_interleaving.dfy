/** Concurrent spawners of one spawn point: the full check and the increment are separate steps. */
module SpawnInterleaving {

  /** Where one spawner stands: outside, past the check, or past the increment and waiting for the world's answer. */
  datatype Phase = Idle | Checked | Counted

  /** leaving counts the NPCs already taken off the list whose decrement is still to come. */
  datatype State = State(count: int, maximum: int, live: nat, leaving: nat, phases: seq<Phase>)

  datatype Step =
    | Check(t: nat)
    | LoadFails(t: nat)
    | Increment(t: nat)
    | Placed(t: nat)
    | RollBack(t: nat)
    | StartDespawn
    | Decrement

  function Start(maximum: int, k: nat): State {
    State(0, maximum, 0, 0, seq(k, _ => Idle))
  }

  predicate At(s: State, t: nat, p: Phase) {
    t < |s.phases| && s.phases[t] == p
  }

  predicate Enabled(s: State, a: Step) {
    match a
    case Check(t) => At(s, t, Idle)
    case LoadFails(t) => At(s, t, Checked)
    case Increment(t) => At(s, t, Checked)
    case Placed(t) => At(s, t, Counted)
    case RollBack(t) => At(s, t, Counted)
    case StartDespawn => s.live > 0
    case Decrement => s.leaving > 0
  }

  function Next(s: State, a: Step): State
    requires Enabled(s, a)
  {
    match a
    case Check(t) => if s.count >= s.maximum then s else s.(phases := s.phases[t := Checked])
    case LoadFails(t) => s.(phases := s.phases[t := Idle])
    case Increment(t) => s.(count := s.count + 1, phases := s.phases[t := Counted])
    case Placed(t) => s.(live := s.live + 1, phases := s.phases[t := Idle])
    case RollBack(t) => s.(count := s.count - 1, phases := s.phases[t := Idle])
    case StartDespawn => s.(live := s.live - 1, leaving := s.leaving + 1)
    case Decrement => s.(count := s.count - 1, leaving := s.leaving - 1)
  }

  /** Whether every step of the list is enabled when its turn comes. */
  predicate Runs(s: State, steps: seq<Step>)
    decreases |steps|
  {
    |steps| == 0 || (Enabled(s, steps[0]) && Runs(Next(s, steps[0]), steps[1..]))
  }

  function After(s: State, steps: seq<Step>): State
    requires Runs(s, steps)
    decreases |steps|
  {
    if |steps| == 0 then s else After(Next(s, steps[0]), steps[1..])
  }

  // ---- the bound ----

  function Number(phases: seq<Phase>, p: Phase): (n: nat)
    ensures n <= |phases|
  {
    if |phases| == 0 then 0 else Number(phases[1..], p) + if phases[0] == p then 1 else 0
  }

  lemma {:induction false} NumberUpdate(phases: seq<Phase>, t: nat, q: Phase, p: Phase)
    requires t < |phases|
    ensures Number(phases[t := q], p) ==
            Number(phases, p) - (if phases[t] == p then 1 else 0) + (if q == p then 1 else 0)
  {
    if t == 0 {
      assert phases[t := q][1..] == phases[1..];
    } else {
      assert phases[t := q][1..] == phases[1..][t - 1 := q];
      NumberUpdate(phases[1..], t - 1, q, p);
    }
  }

  lemma {:induction false} NumberIdle(k: nat, p: Phase)
    ensures Number(seq(k, _ => Idle), p) == if p == Idle then k else 0
  {
    if k > 0 {
      assert seq(k, _ => Idle)[1..] == seq(k - 1, _ => Idle);
      NumberIdle(k - 1, p);
    }
  }

  /** The highest count k spawners can drive a spawn point to. */
  function Bound(maximum: int, k: nat): int {
    if maximum <= 0 then 0 else maximum + k - 1
  }

  /** Every NPC counted is live, leaving, or waiting to be placed; those past the check still fit under the bound. */
  predicate Invariant(s: State) {
    && s.count == s.live + s.leaving + Number(s.phases, Counted)
    && s.count + Number(s.phases, Checked) <= Bound(s.maximum, |s.phases|)
  }

  lemma NextKeepsInvariant(s: State, a: Step)
    requires |s.phases| > 0 && Invariant(s) && Enabled(s, a)
    ensures Invariant(Next(s, a)) && |Next(s, a).phases| == |s.phases| && Next(s, a).maximum == s.maximum
  {
    if !a.StartDespawn? && !a.Decrement? {
      var q := match a case Check(_) => Checked case Increment(_) => Counted case _ => Idle;
      NumberUpdate(s.phases, a.t, q, Checked);
      NumberUpdate(s.phases, a.t, q, Counted);
    }
  }

  lemma {:induction false} RunKeepsInvariant(s: State, steps: seq<Step>)
    requires |s.phases| > 0 && Invariant(s) && Runs(s, steps)
    ensures Invariant(After(s, steps)) && After(s, steps).maximum == s.maximum && |After(s, steps).phases| == |s.phases|
    decreases |steps|
  {
    if |steps| > 0 {
      NextKeepsInvariant(s, steps[0]);
      RunKeepsInvariant(Next(s, steps[0]), steps[1..]);
    }
  }

  /** In every run of k spawners with despawns and rollbacks in between, the count stays within maximum + k - 1. */
  lemma CountBounded(maximum: int, k: nat, steps: seq<Step>)
    requires k > 0 && Runs(Start(maximum, k), steps)
    ensures 0 <= After(Start(maximum, k), steps).count <= Bound(maximum, k)
    ensures var count := After(Start(maximum, k), steps).count;
            0 <= count && (maximum > 0 ==> count <= maximum + k - 1) && (maximum <= 0 ==> count == 0)
    ensures k == 1 && maximum >= 0 ==> After(Start(maximum, k), steps).count <= maximum
  {
    NumberIdle(k, Checked);
    NumberIdle(k, Counted);
    RunKeepsInvariant(Start(maximum, k), steps);
  }

  // ---- nothing stays counted ----

  lemma {:induction false} SomeoneIs(phases: seq<Phase>, p: Phase) returns (t: nat)
    requires Number(phases, p) > 0
    ensures t < |phases| && phases[t] == p
  {
    t := 0;
    if phases[0] != p {
      t := SomeoneIs(phases[1..], p);
      t := t + 1;
    }
  }

  /** From every state that a run can lead to, despawns and rollbacks lead back to a count of zero. */
  lemma {:induction false} CanDrain(s: State) returns (steps: seq<Step>)
    requires s.count == s.live + s.leaving + Number(s.phases, Counted)
    ensures Runs(s, steps) && After(s, steps).count == 0 && After(s, steps).live == 0 && After(s, steps).leaving == 0
    decreases 2 * s.live + s.leaving + Number(s.phases, Counted)
  {
    if s.count == 0 {
      return [];
    }
    var a;
    if s.live > 0 {
      a := StartDespawn;
    } else if s.leaving > 0 {
      a := Decrement;
    } else {
      var t := SomeoneIs(s.phases, Counted);
      NumberUpdate(s.phases, t, Idle, Counted);
      a := RollBack(t);
    }
    var rest := CanDrain(Next(s, a));
    RunsCons(s, a, rest);
    steps := [a] + rest;
  }

  // ---- the bound is reached ----

  lemma {:induction false} RunsConcat(s: State, a: seq<Step>, b: seq<Step>)
    requires Runs(s, a) && Runs(After(s, a), b)
    ensures Runs(s, a + b) && After(s, a + b) == After(After(s, a), b)
    decreases |a|
  {
    if |a| == 0 {
      assert a + b == b;
    } else {
      assert (a + b)[0] == a[0] && (a + b)[1..] == a[1..] + b;
      RunsConcat(Next(s, a[0]), a[1..], b);
    }
  }

  /** n births by the first spawner. */
  lemma {:induction false} Births(maximum: int, k: nat, n: nat) returns (steps: seq<Step>)
    requires k > 0 && n <= maximum
    ensures Runs(Start(maximum, k), steps)
    ensures After(Start(maximum, k), steps) == State(n, maximum, n, 0, seq(k, _ => Idle))
  {
    if n == 0 {
      steps := [];
    } else {
      var init := Births(maximum, k, n - 1);
      var s := After(Start(maximum, k), init);
      var s1 := Next(s, Check(0));
      var s2 := Next(s1, Increment(0));
      var s3 := Next(s2, Placed(0));
      assert s3.phases == seq(k, _ => Idle);
      RunsCons(s2, Placed(0), []);
      RunsCons(s1, Increment(0), [Placed(0)] + []);
      RunsCons(s, Check(0), [Increment(0)] + ([Placed(0)] + []));
      assert [Check(0)] + ([Increment(0)] + ([Placed(0)] + [])) == [Check(0), Increment(0), Placed(0)];
      RunsConcat(Start(maximum, k), init, [Check(0), Increment(0), Placed(0)]);
      steps := init + [Check(0), Increment(0), Placed(0)];
    }
  }

  lemma RunsCons(s: State, a: Step, rest: seq<Step>)
    requires Enabled(s, a) && Runs(Next(s, a), rest)
    ensures Runs(s, [a] + rest) && After(s, [a] + rest) == After(Next(s, a), rest)
  {
    assert ([a] + rest)[1..] == rest;
  }

  /** The first i of k spawners in one phase, the others in another. */
  function Split(k: nat, i: nat, p: Phase, q: Phase): seq<Phase> {
    seq(k, t => if t < i then p else q)
  }

  /** All remaining spawners pass the check while the count is still below the maximum. */
  lemma {:induction false} AllCheck(s: State, k: nat, i: nat) returns (steps: seq<Step>)
    requires i <= k && s.phases == Split(k, i, Checked, Idle) && s.count < s.maximum
    ensures Runs(s, steps) && After(s, steps) == s.(phases := Split(k, k, Checked, Idle))
    decreases k - i
  {
    if i == k {
      steps := [];
    } else {
      var s1 := Next(s, Check(i));
      assert s1.phases == Split(k, i + 1, Checked, Idle);
      var rest := AllCheck(s1, k, i + 1);
      RunsCons(s, Check(i), rest);
      steps := [Check(i)] + rest;
    }
  }

  lemma {:induction false} AllIncrement(s: State, k: nat, i: nat) returns (steps: seq<Step>)
    requires i <= k && s.phases == Split(k, i, Counted, Checked)
    ensures Runs(s, steps)
    ensures After(s, steps) == s.(count := s.count + k - i, phases := Split(k, k, Counted, Checked))
    decreases k - i
  {
    if i == k {
      steps := [];
    } else {
      var s1 := Next(s, Increment(i));
      assert s1.phases == Split(k, i + 1, Counted, Checked);
      var rest := AllIncrement(s1, k, i + 1);
      RunsCons(s, Increment(i), rest);
      steps := [Increment(i)] + rest;
    }
  }

  /** For every positive maximum and number of spawners some run does reach the bound, overshooting by k - 1. */
  lemma BoundReached(maximum: int, k: nat) returns (steps: seq<Step>)
    requires maximum > 0 && k > 0
    ensures Runs(Start(maximum, k), steps) && After(Start(maximum, k), steps).count == maximum + k - 1
  {
    var births := Births(maximum, k, maximum - 1);
    var s := After(Start(maximum, k), births);
    assert s.phases == Split(k, 0, Checked, Idle);
    var checks := AllCheck(s, k, 0);
    var s1 := After(s, checks);
    assert s1.phases == Split(k, 0, Counted, Checked);
    var increments := AllIncrement(s1, k, 0);
    RunsConcat(s, checks, increments);
    RunsConcat(Start(maximum, k), births, checks + increments);
    steps := births + (checks + increments);
  }
}
