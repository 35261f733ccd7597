/**
 * The cursor-tracking particle effect of the hero banner (`HeroCursorEffect`):
 * the hover flag that gates spawning, the two particles each mouse move adds,
 * and one animation tick, which first enumerates the pairs of particles close
 * enough to be joined by a line and then advances every particle and keeps
 * only those with life left.
 *
 * Coordinates, velocities and life are exact reals. The distance test
 * `sqrt(dx*dx + dy*dy) < 150` is stated on the squared distance, which is
 * equivalent because both sides are non-negative. Drawing is represented by
 * what would be drawn: the list of joined pairs a tick returns.
 */
module HeroCursor {

  /** A particle record: position, velocity, remaining life and `maxLife`
      (always 1, never read). */
  datatype Particle = Particle(x: real, y: real, vx: real, vy: real, life: real, maxLife: real)

  /** The line drawn between `particles[i]` and `particles[j]`. */
  datatype Line = Line(i: nat, j: nat)

  const LifeStep: real := 0.02
  const LinkDistance: real := 150.0

  // ---------------------------------------------------------------------------
  // Spawning
  // ---------------------------------------------------------------------------

  /** `(Math.random() - 0.5) * 4` for a draw `r` of `Math.random()`. */
  function SpawnVelocity(r: real): (v: real)
    requires 0.0 <= r < 1.0
    ensures -2.0 <= v < 2.0
  {
    (r - 0.5) * 4.0
  }

  /** A particle as a mouse move creates it at `(x, y)`, from two random draws. */
  function Spawn(x: real, y: real, rx: real, ry: real): Particle
    requires 0.0 <= rx < 1.0 && 0.0 <= ry < 1.0
  {
    Particle(x, y, SpawnVelocity(rx), SpawnVelocity(ry), 1.0, 1.0)
  }

  /** What holds of every particle in the collection between events: it has
      life left, at most the life it was born with, and a velocity from the
      spawn range. */
  predicate Live(p: Particle) {
    && 0.0 < p.life <= 1.0
    && p.maxLife == 1.0
    && -2.0 <= p.vx < 2.0
    && -2.0 <= p.vy < 2.0
  }

  lemma SpawnIsLive(x: real, y: real, rx: real, ry: real)
    requires 0.0 <= rx < 1.0 && 0.0 <= ry < 1.0
    ensures Live(Spawn(x, y, rx, ry))
    ensures Spawn(x, y, rx, ry).x == x && Spawn(x, y, rx, ry).y == y
    ensures Spawn(x, y, rx, ry).life == 1.0
  {
  }

  // ---------------------------------------------------------------------------
  // Lines between close particles
  // ---------------------------------------------------------------------------

  function SquaredDistance(p: Particle, q: Particle): (d: real)
    ensures d >= 0.0
  {
    (p.x - q.x) * (p.x - q.x) + (p.y - q.y) * (p.y - q.y)
  }

  /** `distance < 150`, compared on squares. */
  predicate Close(p: Particle, q: Particle) {
    SquaredDistance(p, q) < LinkDistance * LinkDistance
  }

  /** Whether two particles are joined does not depend on their order. */
  lemma CloseSymmetric(p: Particle, q: Particle)
    ensures SquaredDistance(p, q) == SquaredDistance(q, p)
    ensures Close(p, q) <==> Close(q, p)
  {
    assert (p.x - q.x) * (p.x - q.x) == (q.x - p.x) * (q.x - p.x);
    assert (p.y - q.y) * (p.y - q.y) == (q.y - p.y) * (q.y - p.y);
  }

  /** The lines the inner loop draws for row `i` while `j` ranges over
      `i + 1 .. hi - 1`, in that order. */
  function RowLinks(ps: seq<Particle>, i: nat, hi: nat): seq<Line>
    requires i < |ps| && hi <= |ps|
    decreases hi
  {
    if hi <= i + 1 then []
    else RowLinks(ps, i, hi - 1) + (if Close(ps[i], ps[hi - 1]) then [Line(i, hi - 1)] else [])
  }

  /** The lines the outer loop draws for rows `0 .. n - 1`, in that order. */
  function LinksBefore(ps: seq<Particle>, n: nat): seq<Line>
    requires n <= |ps|
  {
    if n == 0 then [] else LinksBefore(ps, n - 1) + RowLinks(ps, n - 1, |ps|)
  }

  /** All lines one tick draws, in drawing order. */
  function Links(ps: seq<Particle>): seq<Line> {
    LinksBefore(ps, |ps|)
  }

  /** Drawing order: by first index, then by second. */
  predicate LineBefore(a: Line, b: Line) {
    a.i < b.i || (a.i == b.i && a.j < b.j)
  }

  predicate StrictlyOrdered(lines: seq<Line>) {
    forall p, q :: 0 <= p < q < |lines| ==> LineBefore(lines[p], lines[q])
  }

  lemma {:induction false} RowLinksSpec(ps: seq<Particle>, i: nat, hi: nat)
    requires i < |ps| && hi <= |ps|
    ensures forall l :: l in RowLinks(ps, i, hi) <==> l.i == i && i < l.j < hi && Close(ps[i], ps[l.j])
    ensures StrictlyOrdered(RowLinks(ps, i, hi))
    decreases hi
  {
    if hi > i + 1 {
      RowLinksSpec(ps, i, hi - 1);
    }
  }

  /** Two ordered runs of lines, each line of the first drawn before each of
      the second, make one ordered run. */
  lemma OrderedConcat(a: seq<Line>, b: seq<Line>)
    requires StrictlyOrdered(a) && StrictlyOrdered(b)
    requires forall x, y :: x in a && y in b ==> LineBefore(x, y)
    ensures StrictlyOrdered(a + b)
  {
    forall p, q | 0 <= p < q < |a + b| ensures LineBefore((a + b)[p], (a + b)[q]) {
      if q < |a| {
        assert (a + b)[p] == a[p] && (a + b)[q] == a[q];
      } else if p >= |a| {
        assert (a + b)[p] == b[p - |a|] && (a + b)[q] == b[q - |a|];
      } else {
        assert (a + b)[p] == a[p] && a[p] in a;
        assert (a + b)[q] == b[q - |a|] && b[q - |a|] in b;
      }
    }
  }

  lemma {:induction false} LinksBeforeSpec(ps: seq<Particle>, n: nat)
    requires n <= |ps|
    ensures forall l :: l in LinksBefore(ps, n) <==> l.i < n && l.i < l.j < |ps| && Close(ps[l.i], ps[l.j])
    ensures StrictlyOrdered(LinksBefore(ps, n))
  {
    if n > 0 {
      LinksBeforeSpec(ps, n - 1);
      RowLinksSpec(ps, n - 1, |ps|);
      var a := LinksBefore(ps, n - 1);
      var b := RowLinks(ps, n - 1, |ps|);
      assert forall x, y :: x in a && y in b ==> LineBefore(x, y) by {
        forall x, y | x in a && y in b ensures LineBefore(x, y) {
          assert x.i < n - 1 && y.i == n - 1;
        }
      }
      OrderedConcat(a, b);
    }
  }

  /** The lines of a tick are exactly the pairs `i < j` of particles within the
      link distance: no particle is joined to itself, no pair is drawn twice,
      and each pair is drawn once whichever order its particles are in. */
  lemma LinksSpec(ps: seq<Particle>)
    ensures forall i: nat, j: nat :: Line(i, j) in Links(ps) <==> i < j < |ps| && Close(ps[i], ps[j])
    ensures forall p, q :: 0 <= p < q < |Links(ps)| ==> Links(ps)[p] != Links(ps)[q]
    ensures forall i: nat, j: nat :: Line(i, j) in Links(ps) ==> Line(j, i) !in Links(ps)
  {
    LinksBeforeSpec(ps, |ps|);
    var l := Links(ps);
    assert forall i: nat, j: nat :: Line(i, j) in l <==> i < j < |ps| && Close(ps[i], ps[j]) by {
      forall i: nat, j: nat ensures Line(i, j) in l <==> i < j < |ps| && Close(ps[i], ps[j]) {
        assert Line(i, j).i == i && Line(i, j).j == j;
      }
    }
  }

  /** The nested loops of a tick (`for i`, `for j = i + 1`), collecting the
      lines drawn instead of drawing them. */
  method FindLinks(ps: seq<Particle>) returns (lines: seq<Line>)
    ensures lines == Links(ps)
  {
    lines := [];
    if |ps| > 0 {
      for i := 0 to |ps|
        invariant lines == LinksBefore(ps, i)
      {
        for j := i + 1 to |ps|
          invariant lines == LinksBefore(ps, i) + RowLinks(ps, i, j)
        {
          if Close(ps[i], ps[j]) {
            lines := lines + [Line(i, j)];
          }
        }
      }
    }
  }

  // ---------------------------------------------------------------------------
  // Advancing and compacting
  // ---------------------------------------------------------------------------

  /** What the filter callback does to a particle before testing it. */
  function Advance(p: Particle): Particle {
    p.(x := p.x + p.vx, y := p.y + p.vy, life := p.life - LifeStep)
  }

  /** The collection after the filter: every particle advanced, those without
      life left dropped, the rest in their old order. */
  function Survivors(ps: seq<Particle>): (r: seq<Particle>)
    ensures |r| <= |ps|
    ensures forall k :: 0 <= k < |r| ==> r[k].life > 0.0
  {
    if ps == [] then []
    else
      var q := Advance(ps[|ps| - 1]);
      Survivors(ps[..|ps| - 1]) + (if q.life > 0.0 then [q] else [])
  }

  /** The positions in `ps` of the particles that survive the tick. */
  function SurvivorIndices(ps: seq<Particle>): (idx: seq<nat>)
    ensures forall k :: 0 <= k < |idx| ==> idx[k] < |ps|
  {
    if ps == [] then []
    else
      SurvivorIndices(ps[..|ps| - 1]) + (if Advance(ps[|ps| - 1]).life > 0.0 then [|ps| - 1] else [])
  }

  /** The `k`-th survivor is the particle at the `k`-th surviving position,
      advanced. */
  lemma {:induction false} SurvivorsAtIndices(ps: seq<Particle>)
    ensures |SurvivorIndices(ps)| == |Survivors(ps)|
    ensures forall k :: 0 <= k < |Survivors(ps)| ==>
      Survivors(ps)[k] == Advance(ps[SurvivorIndices(ps)[k]])
  {
    if ps != [] {
      var init := ps[..|ps| - 1];
      SurvivorsAtIndices(init);
      forall k | 0 <= k < |Survivors(init)|
        ensures Survivors(ps)[k] == Advance(ps[SurvivorIndices(ps)[k]])
      {
        assert init[SurvivorIndices(init)[k]] == ps[SurvivorIndices(init)[k]];
      }
    }
  }

  /** The surviving positions are increasing. */
  lemma {:induction false} SurvivorIndicesIncreasing(ps: seq<Particle>)
    ensures forall k, l :: 0 <= k < l < |SurvivorIndices(ps)| ==>
      SurvivorIndices(ps)[k] < SurvivorIndices(ps)[l]
  {
    if ps != [] {
      SurvivorIndicesIncreasing(ps[..|ps| - 1]);
    }
  }

  /** A position survives exactly when its advanced particle has life left. */
  lemma {:induction false} SurvivorIndicesExact(ps: seq<Particle>)
    ensures forall i :: 0 <= i < |ps| ==> (i in SurvivorIndices(ps) <==> Advance(ps[i]).life > 0.0)
  {
    if ps != [] {
      var init := ps[..|ps| - 1];
      SurvivorIndicesExact(init);
      forall i | 0 <= i < |init|
        ensures i in SurvivorIndices(ps) <==> Advance(ps[i]).life > 0.0
      {
        assert init[i] == ps[i];
      }
    }
  }

  /** The compaction keeps exactly the particles whose advanced life is
      positive, each one advanced, in their old relative order. */
  lemma SurvivorsSpec(ps: seq<Particle>)
    ensures var idx, r := SurvivorIndices(ps), Survivors(ps);
      && |idx| == |r|
      && (forall k :: 0 <= k < |idx| ==> idx[k] < |ps| && r[k] == Advance(ps[idx[k]]))
      && (forall k, l :: 0 <= k < l < |idx| ==> idx[k] < idx[l])
      && (forall i :: 0 <= i < |ps| ==> (i in idx <==> Advance(ps[i]).life > 0.0))
  {
    SurvivorsAtIndices(ps);
    SurvivorIndicesIncreasing(ps);
    SurvivorIndicesExact(ps);
  }

  /** A tick turns a collection of live particles into one: the survivors have
      life left and nothing else that `Live` constrains changes. */
  lemma SurvivorsLive(ps: seq<Particle>)
    requires forall k :: 0 <= k < |ps| ==> Live(ps[k])
    ensures forall k :: 0 <= k < |Survivors(ps)| ==> Live(Survivors(ps)[k])
  {
    SurvivorsSpec(ps);
  }

  /** The filter of a tick, as the loop it stands for. */
  method AdvanceAll(ps: seq<Particle>) returns (kept: seq<Particle>)
    ensures kept == Survivors(ps)
  {
    kept := [];
    for n := 0 to |ps|
      invariant kept == Survivors(ps[..n])
    {
      assert ps[..n + 1][..n] == ps[..n];
      var q := Advance(ps[n]);
      if q.life > 0.0 {
        kept := kept + [q];
      }
    }
    assert ps[..|ps|] == ps;
  }

  /** The collection after `n` ticks with no mouse movement. */
  function AfterTicks(ps: seq<Particle>, n: nat): seq<Particle>
    decreases n
  {
    if n == 0 then ps else AfterTicks(Survivors(ps), n - 1)
  }

  lemma {:induction false} AfterTicksEmpty(n: nat)
    ensures AfterTicks([], n) == []
  {
    if n > 0 {
      AfterTicksEmpty(n - 1);
    }
  }

  /** A lone particle with life left is still there after `n` ticks exactly
      when its life minus `n` steps is positive, and then its life is exactly that. */
  lemma {:induction false} LoneParticleLifetime(p: Particle, n: nat)
    requires p.life > 0.0
    ensures |AfterTicks([p], n)| == if p.life - LifeStep * (n as real) > 0.0 then 1 else 0
    ensures |AfterTicks([p], n)| == 1 ==> AfterTicks([p], n)[0].life == p.life - LifeStep * (n as real)
    decreases n
  {
    if n > 0 {
      var q := Advance(p);
      assert [p][..0] == [];
      assert AfterTicks([p], n) == AfterTicks(Survivors([p]), n - 1);
      assert q.life - LifeStep * ((n - 1) as real) == p.life - LifeStep * (n as real);
      if q.life > 0.0 {
        assert Survivors([p]) == [q];
        LoneParticleLifetime(q, n - 1);
      } else {
        assert Survivors([p]) == [];
        AfterTicksEmpty(n - 1);
      }
    }
  }

  /** A freshly spawned particle is drawn for 49 ticks and is gone after the
      50th (with exact arithmetic). */
  lemma SpawnedParticleLifetime(p: Particle)
    requires p.life == 1.0
    ensures |AfterTicks([p], 49)| == 1
    ensures AfterTicks([p], 50) == []
  {
    LoneParticleLifetime(p, 49);
    LoneParticleLifetime(p, 50);
  }

  // ---------------------------------------------------------------------------
  // The effect object
  // ---------------------------------------------------------------------------

  /** The state of `HeroCursorEffect` once its canvas exists. */
  class HeroCursorEffect {
    var particles: seq<Particle>
    var mouseX: real
    var mouseY: real
    var isHeroHovered: bool

    ghost predicate Valid()
      reads this
    {
      forall k :: 0 <= k < |particles| ==> Live(particles[k])
    }

    constructor ()
      ensures Valid()
      ensures particles == [] && mouseX == 0.0 && mouseY == 0.0 && !isHeroHovered
    {
      particles := [];
      mouseX := 0.0;
      mouseY := 0.0;
      isHeroHovered := false;
    }

    /** `mouseenter` on the hero section. */
    method MouseEnter()
      requires Valid()
      modifies this
      ensures Valid()
      ensures isHeroHovered
      ensures particles == old(particles) && mouseX == old(mouseX) && mouseY == old(mouseY)
    {
      isHeroHovered := true;
    }

    /** `mouseleave` on the hero section. */
    method MouseLeave()
      requires Valid()
      modifies this
      ensures Valid()
      ensures !isHeroHovered
      ensures particles == old(particles) && mouseX == old(mouseX) && mouseY == old(mouseY)
    {
      isHeroHovered := false;
    }

    /** `mousemove` on the hero section at `(clientX, clientY)`, with `rectTop`
        the section's top edge and `draws` the four `Math.random()` results the
        handler would use, in call order. Only while hovered does it record the
        position and push two particles there. */
    method MouseMove(clientX: real, clientY: real, rectTop: real, draws: seq<real>)
      requires Valid()
      requires |draws| == 4 && forall k :: 0 <= k < 4 ==> 0.0 <= draws[k] < 1.0
      modifies this
      ensures Valid()
      ensures isHeroHovered == old(isHeroHovered)
      ensures old(isHeroHovered) ==>
        && mouseX == clientX && mouseY == clientY - rectTop
        && particles == old(particles) + [
             Spawn(clientX, clientY - rectTop, draws[0], draws[1]),
             Spawn(clientX, clientY - rectTop, draws[2], draws[3])]
      ensures !old(isHeroHovered) ==>
        particles == old(particles) && mouseX == old(mouseX) && mouseY == old(mouseY)
    {
      if !isHeroHovered {
        return;
      }
      mouseX := clientX;
      mouseY := clientY - rectTop;
      for i := 0 to 2
        invariant |particles| == |old(particles)| + i
        invariant particles[..|old(particles)|] == old(particles)
        invariant forall k :: |old(particles)| <= k < |particles| ==>
          var m := k - |old(particles)|;
          particles[k] == Spawn(mouseX, mouseY, draws[2 * m], draws[2 * m + 1])
        invariant Valid()
        invariant mouseX == clientX && mouseY == clientY - rectTop && isHeroHovered
      {
        SpawnIsLive(mouseX, mouseY, draws[2 * i], draws[2 * i + 1]);
        particles := particles + [Spawn(mouseX, mouseY, draws[2 * i], draws[2 * i + 1])];
      }
      ghost var n := |old(particles)|;
      assert particles == old(particles) + [particles[n], particles[n + 1]];
    }

    /** One call of `animate`: returns the lines it draws between the particles
        as they were, then replaces the collection by the advanced survivors. */
    method Animate() returns (lines: seq<Line>)
      requires Valid()
      modifies this
      ensures Valid()
      ensures lines == Links(old(particles))
      ensures particles == Survivors(old(particles))
      ensures |particles| <= |old(particles)|
      ensures mouseX == old(mouseX) && mouseY == old(mouseY) && isHeroHovered == old(isHeroHovered)
    {
      lines := FindLinks(particles);
      SurvivorsLive(particles);
      particles := AdvanceAll(particles);
    }
  }
}
