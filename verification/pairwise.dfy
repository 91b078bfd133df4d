/**
 * The older NPC overlay's test for monsters that can attack together: two
 * candidates pair when their next attacks call for different non-null
 * protection prayers and the difference of their ticks-till-attack is a
 * multiple of the greatest common divisor of their attack cycles. Every
 * monster that pairs with some other candidate is marked with an "S".
 */
module Pairwise {
  import opened InfernoTypes
  import SameTick

  /** `getAttackCycle`: ticks between two attacks of each type. */
  function AttackCycle(k: NpcType): (c: nat)
    ensures 3 <= c <= 8
  {
    match k
    case Bat => 3
    case Blob => 6
    case Mage => 5
    case Ranger => 5
    case Meleer => 7
    case Jad => 8
    case _ => 5
  }

  /** `gcd`, Euclid's algorithm. */
  function Gcd(a: nat, b: nat): nat
    decreases b
  {
    if b == 0 then a else Gcd(b, a % b)
  }

  /** The gcd divides both arguments, and it is positive unless both are zero. */
  lemma {:induction false} GcdDivides(a: nat, b: nat)
    requires a > 0 || b > 0
    ensures Gcd(a, b) > 0 && a % Gcd(a, b) == 0 && b % Gcd(a, b) == 0
    decreases b
  {
    if b > 0 {
      GcdDivides(b, a % b);
      var g := Gcd(a, b);
      assert a == (a / b) * b + a % b;
      var x, y := b / g, (a % b) / g;
      assert b == x * g && a % b == y * g;
      assert a == ((a / b) * x + y) * g by {
        assert (a / b) * b == (a / b) * (x * g) == ((a / b) * x) * g;
      }
      MultipleMod((a / b) * x + y, g);
    }
  }

  /** Every common divisor divides the gcd: it is the greatest. */
  lemma {:induction false} GcdGreatest(a: nat, b: nat, d: nat)
    requires d > 0 && a % d == 0 && b % d == 0
    ensures Gcd(a, b) % d == 0
    decreases b
  {
    if b > 0 {
      var q := a / b;
      assert a % b == a - q * b;
      var x, y := a / d, b / d;
      assert a == x * d && b == y * d;
      assert a % b == (x - q * y) * d by {
        assert q * b == q * (y * d) == (q * y) * d;
      }
      MultipleMod(x - q * y, d);
      GcdGreatest(b, a % b, d);
    }
  }

  /** The gcd of two attack cycles, never zero. */
  function CycleGcd(k1: NpcType, k2: NpcType): (g: nat)
    ensures g > 0 && AttackCycle(k1) % g == 0 && AttackCycle(k2) % g == 0
  {
    GcdDivides(AttackCycle(k1), AttackCycle(k2));
    Gcd(AttackCycle(k1), AttackCycle(k2))
  }

  /** `Math.abs(tick1 - tick2)`. */
  function TicksApart(n1: Npc, n2: Npc): nat
  {
    if n1.ticks >= n2.ticks then n1.ticks - n2.ticks else n2.ticks - n1.ticks
  }

  /** `canAttackSimultaneously`: different non-null prayers, and a tick distance the cycles' gcd divides. */
  predicate CanAttackSimultaneously(prayerOf: Attack -> Option<Prayer>, n1: Npc, n2: Npc)
    ensures CanAttackSimultaneously(prayerOf, n1, n2) ==>
      prayerOf(n1.attack).Some? && prayerOf(n2.attack).Some? && prayerOf(n1.attack) != prayerOf(n2.attack)
  {
    var p1, p2 := prayerOf(n1.attack), prayerOf(n2.attack);
    if p1.None? || p2.None? || p1 == p2 then false
    else
      var g := CycleGcd(n1.kind, n2.kind);
      g > 0 && TicksApart(n1, n2) % g == 0
  }

  /** Two monsters attacking on the same tick with different prayers always pair. */
  lemma SameTickPairs(prayerOf: Attack -> Option<Prayer>, n1: Npc, n2: Npc)
    requires n1.ticks == n2.ticks
    requires prayerOf(n1.attack).Some? && prayerOf(n2.attack).Some? && prayerOf(n1.attack) != prayerOf(n2.attack)
    ensures CanAttackSimultaneously(prayerOf, n1, n2)
  {
    var g := CycleGcd(n1.kind, n2.kind);
    assert TicksApart(n1, n2) == 0;
    assert 0 % g == 0;
  }

  /** The test does not depend on the order of the pair, and no monster pairs with itself. */
  lemma CanAttackSymmetric(prayerOf: Attack -> Option<Prayer>, n1: Npc, n2: Npc)
    ensures CanAttackSimultaneously(prayerOf, n1, n2) <==> CanAttackSimultaneously(prayerOf, n2, n1)
    ensures !CanAttackSimultaneously(prayerOf, n1, n1)
  {
    var c1, c2 := AttackCycle(n1.kind), AttackCycle(n2.kind);
    GcdDivides(c1, c2);
    GcdDivides(c2, c1);
    GcdGreatest(c1, c2, Gcd(c2, c1));
    GcdGreatest(c2, c1, Gcd(c1, c2));
    GcdAntisymmetric(Gcd(c1, c2), Gcd(c2, c1));
  }

  /** Two positive numbers that divide each other are equal. */
  lemma GcdAntisymmetric(x: nat, y: nat)
    requires x > 0 && y > 0 && x % y == 0 && y % x == 0
    ensures x == y
  {
  }

  /** Two attack sequences that meet make their starting distance a multiple of any common divisor of the cycles. */
  lemma MeetingDivides(t1: int, t2: int, c1: int, c2: int, g: int, j: int, k: int)
    requires g > 0 && c1 % g == 0 && c2 % g == 0
    requires t1 + j * c1 == t2 + k * c2
    ensures (t1 - t2) % g == 0 && (t2 - t1) % g == 0
  {
    var kc := ScaledMultiple(k, c2, g);
    var jc := ScaledMultiple(j, c1, g);
    var m := kc - jc;
    assert t1 - t2 == m * g;
    MultipleMod(m, g);
    assert t2 - t1 == (-m) * g;
    MultipleMod(-m, g);
  }

  /** A multiple of a multiple of `g` is a multiple of `g`. */
  lemma ScaledMultiple(k: int, c: int, g: int) returns (q: int)
    requires g > 0 && c % g == 0
    ensures k * c == q * g
  {
    var b := c / g;
    assert c == b * g;
    q := k * b;
    assert k * c == k * (b * g) == (k * b) * g;
  }

  /**
   * A pair the test rejects on its ticks can never attack on the same tick:
   * with attacks at `t1 + j * c1` and `t2 + k * c2`, a common tick would make
   * the tick distance a multiple of both cycles' gcd.
   */
  lemma RejectedNeverCoincide(n1: Npc, n2: Npc, j: nat, k: nat)
    requires TicksApart(n1, n2) % CycleGcd(n1.kind, n2.kind) != 0
    ensures n1.ticks + j * AttackCycle(n1.kind) != n2.ticks + k * AttackCycle(n2.kind)
  {
    var g := CycleGcd(n1.kind, n2.kind);
    if n1.ticks + j * AttackCycle(n1.kind) == n2.ticks + k * AttackCycle(n2.kind) {
      MeetingDivides(n1.ticks, n2.ticks, AttackCycle(n1.kind), AttackCycle(n2.kind), g, j, k);
    }
  }

  /** Blob (cycle 6) against Jad (cycle 8): the gcd is 2, so ticks 2 apart pair and ticks 1 apart never do. */
  lemma BlobAgainstJad(prayerOf: Attack -> Option<Prayer>, blob: Npc, jad: Npc)
    requires blob.kind == Blob && jad.kind == Jad
    requires prayerOf(blob.attack).Some? && prayerOf(jad.attack).Some? && prayerOf(blob.attack) != prayerOf(jad.attack)
    ensures jad.ticks == blob.ticks + 2 ==> CanAttackSimultaneously(prayerOf, blob, jad)
    ensures jad.ticks == blob.ticks + 1 ==> !CanAttackSimultaneously(prayerOf, blob, jad)
  {
    assert Gcd(6, 8) == 2 by {
      assert Gcd(6, 8) == Gcd(8, 6) == Gcd(6, 2) == Gcd(2, 0);
    }
  }

  /** Meleer (cycle 7) against Ranger (cycle 5): the gcd is 1, so they pair at any tick distance. */
  lemma MeleerAgainstRanger(prayerOf: Attack -> Option<Prayer>, meleer: Npc, ranger: Npc)
    requires meleer.kind == Meleer && ranger.kind == Ranger
    requires prayerOf(meleer.attack).Some? && prayerOf(ranger.attack).Some? && prayerOf(meleer.attack) != prayerOf(ranger.attack)
    ensures CanAttackSimultaneously(prayerOf, meleer, ranger)
  {
    assert Gcd(7, 5) == 1 by {
      assert Gcd(7, 5) == Gcd(5, 2) == Gcd(2, 1) == Gcd(1, 0);
    }
  }

  /** Whether `n` is one of a pair `(a, b)`, `a < b`, accepted by `ok`, that the scan has visited before reaching `(i, j)`. */
  ghost predicate PairedBefore(ok: (Npc, Npc) -> bool, all: seq<Npc>, i: int, j: int, n: Npc)
  {
    exists a, b :: 0 <= a < b < |all| && (a < i || (a == i && b < j)) && ok(all[a], all[b]) && (n == all[a] || n == all[b])
  }

  /** Visiting the pair `(i, j)` adds both to the marked set when they pair. */
  lemma PairStep(ok: (Npc, Npc) -> bool, all: seq<Npc>, i: nat, j: nat, n: Npc)
    requires i < j < |all|
    ensures PairedBefore(ok, all, i, j + 1, n) <==>
      PairedBefore(ok, all, i, j, n) || (ok(all[i], all[j]) && (n == all[i] || n == all[j]))
  {
    if ok(all[i], all[j]) && (n == all[i] || n == all[j]) {
      assert 0 <= i < j < |all| && i == i && j < j + 1;
    }
  }

  /** The end of one row of pairs is the start of the next. */
  lemma NextRow(ok: (Npc, Npc) -> bool, all: seq<Npc>, i: nat, n: Npc)
    requires i < |all|
    ensures PairedBefore(ok, all, i, |all|, n) <==> PairedBefore(ok, all, i + 1, i + 2, n)
  {
  }

  /** After every pair, for a symmetric test that rejects a monster paired with itself, the marked monsters are those that pair with some other one. */
  lemma PairedMeaning(ok: (Npc, Npc) -> bool, all: seq<Npc>, n: Npc)
    requires forall x, y :: ok(x, y) == ok(y, x)
    requires forall x :: !ok(x, x)
    ensures PairedBefore(ok, all, |all|, |all| + 1, n) <==> n in all && exists m :: m in all && ok(n, m)
  {
    if n in all && exists m :: m in all && ok(n, m) {
      var m :| m in all && ok(n, m);
      var a :| 0 <= a < |all| && all[a] == n;
      var b :| 0 <= b < |all| && all[b] == m;
      if a < b {
        assert ok(all[a], all[b]);
      } else {
        assert a != b;
        assert ok(all[b], all[a]);
      }
    }
    if PairedBefore(ok, all, |all|, |all| + 1, n) {
      var a, b :| 0 <= a < b < |all| && ok(all[a], all[b]) && (n == all[a] || n == all[b]);
      assert all[a] in all && all[b] in all;
    }
  }

  /**
   * `findSimultaneousAttackers` of the older overlay: every pair of
   * candidates is examined once, and both members of a pair that can attack
   * together are marked.
   */
  method FindSimultaneousAttackers(host: Host, roster: seq<Npc>) returns (marked: set<Npc>)
    ensures forall n :: n in marked <==>
      n in SameTick.Active(host, roster) &&
      exists m :: m in SameTick.Active(host, roster) && CanAttackSimultaneously(host.prayerOf, n, m)
  {
    var all := SameTick.CollectActive(host, roster);
    var ok := (x, y) => CanAttackSimultaneously(host.prayerOf, x, y);
    marked := {};
    var i := 0;
    while i < |all|
      invariant 0 <= i <= |all|
      invariant forall n :: n in marked <==> PairedBefore(ok, all, i, i + 1, n)
    {
      var j := i + 1;
      while j < |all|
        invariant i + 1 <= j <= |all|
        invariant forall n :: n in marked <==> PairedBefore(ok, all, i, j, n)
      {
        forall n {
          PairStep(ok, all, i, j, n);
        }
        if CanAttackSimultaneously(host.prayerOf, all[i], all[j]) {
          marked := marked + {all[i], all[j]};
        }
        j := j + 1;
      }
      forall n {
        NextRow(ok, all, i, n);
      }
      i := i + 1;
    }
    forall x, y {
      CanAttackSymmetric(host.prayerOf, x, y);
    }
    forall n {
      PairedMeaning(ok, all, n);
    }
  }

  /** The "S" marker: a marked monster that is not dying and has an upcoming attack. */
  predicate ShowsS(marked: set<Npc>, n: Npc, dead: bool)
  {
    n in marked && !dead && n.ticks > 0
  }

  /** With the marked set as found, the extra checks never hide the marker. */
  lemma ShowsSMeansMarked(host: Host, roster: seq<Npc>, marked: set<Npc>, n: Npc)
    requires forall n :: n in marked ==> n in SameTick.Active(host, roster)
    ensures ShowsS(marked, n, host.isDead(n.id)) <==> n in marked
  {
  }
}
