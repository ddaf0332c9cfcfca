/**
  Searching the nodes reachable through `local` sources. Node names link to the names
  their tab's query refers to; a search looks for any node in a target set. The
  search as written enumerates layer after layer without remembering what it has
  seen; the reachability closure remembers, and so always ends.
*/
module Expansion {
  /** For each name with a tab, the names its query's `local` sources refer to. */
  type Links = map<string, set<string>>

  /** The nodes one expansion step reaches from a set of nodes. */
  function Successors(g: Links, c: set<string>): (r: set<string>)
    ensures forall f, n :: f in c && f in g && n in g[f] ==> n in r
  {
    set f, n | f in c && f in g && n in g[f] :: n
  }

  /** Some node in `names` is a target. */
  predicate Hits(targets: set<string>, names: set<string>) {
    names * targets != {}
  }

  datatype Outcome = Found | Exhausted | OutOfFuel

  /**
    The enumeration as written: it walks the nodes layer by layer and stops at the first
    target, or when a layer is empty. It keeps no visited set, so it does not stop on a
    cycle without a target; `fuel` bounds the layers looked at, and `OutOfFuel` says the
    enumeration is still running.
  */
  function ExpandSearch(g: Links, targets: set<string>, layer: set<string>, fuel: nat): Outcome
    decreases fuel
  {
    if Hits(targets, layer) then Found
    else if layer == {} then Exhausted
    else if fuel == 0 then OutOfFuel
    else ExpandSearch(g, targets, Successors(g, layer), fuel - 1)
  }

  /** The `k`-th layer of the enumeration that starts at `start`. */
  ghost function Layer(g: Links, start: set<string>, k: nat): set<string> {
    if k == 0 then start else Successors(g, Layer(g, start, k - 1))
  }

  lemma {:induction false} LayerShift(g: Links, start: set<string>, k: nat)
    ensures Layer(g, start, k + 1) == Layer(g, Successors(g, start), k)
    decreases k
  {
    if k > 0 {
      LayerShift(g, start, k - 1);
    }
  }

  lemma {:induction false} EmptyLayers(g: Links, k: nat)
    ensures Layer(g, {}, k) == {}
    decreases k
  {
    if k > 0 {
      EmptyLayers(g, k - 1);
    }
  }

  /** One layer further: the hits in the layers after `layer` are the hits in the layers from its successors. */
  lemma ShiftedHits(g: Links, targets: set<string>, layer: set<string>, fuel: nat)
    requires fuel > 0 && !Hits(targets, layer)
    ensures (exists k: nat :: k <= fuel - 1 && Hits(targets, Layer(g, Successors(g, layer), k))) <==>
            (exists k: nat :: k <= fuel && Hits(targets, Layer(g, layer, k)))
  {
    var next := Successors(g, layer);
    if exists k: nat :: k <= fuel - 1 && Hits(targets, Layer(g, next, k)) {
      var k: nat :| k <= fuel - 1 && Hits(targets, Layer(g, next, k));
      LayerShift(g, layer, k);
      assert Hits(targets, Layer(g, layer, k + 1));
    }
    if exists k: nat :: k <= fuel && Hits(targets, Layer(g, layer, k)) {
      var k: nat :| k <= fuel && Hits(targets, Layer(g, layer, k));
      assert k != 0;
      LayerShift(g, layer, k - 1);
      assert Hits(targets, Layer(g, next, k - 1));
    }
  }

  /** The enumeration finds a target within `fuel` steps exactly when one of the first layers holds one. */
  lemma {:induction false} ExpandSearchFinds(g: Links, targets: set<string>, layer: set<string>, fuel: nat)
    ensures ExpandSearch(g, targets, layer, fuel) == Found <==>
              exists k: nat :: k <= fuel && Hits(targets, Layer(g, layer, k))
    decreases fuel
  {
    if Hits(targets, layer) {
      var k: nat := 0;
      assert Layer(g, layer, k) == layer;
      assert k <= fuel && Hits(targets, Layer(g, layer, k));
      assert ExpandSearch(g, targets, layer, fuel) == Found;
      assert exists j: nat :: j <= fuel && Hits(targets, Layer(g, layer, j));
    } else if layer == {} {
      forall k: nat | k <= fuel ensures !Hits(targets, Layer(g, layer, k)) {
        EmptyLayers(g, k);
      }
    } else if fuel == 0 {
      forall k: nat | k <= fuel ensures !Hits(targets, Layer(g, layer, k)) {
        assert Layer(g, layer, k) == layer;
      }
    } else {
      ExpandSearchFinds(g, targets, Successors(g, layer), fuel - 1);
      ShiftedHits(g, targets, layer, fuel);
    }
  }

  /** The enumeration ends without a target exactly when some layer is empty and no earlier one hits. */
  lemma {:induction false} ExpandSearchExhausts(g: Links, targets: set<string>, layer: set<string>, fuel: nat)
    ensures ExpandSearch(g, targets, layer, fuel) == Exhausted ==>
              exists k: nat :: k <= fuel && Layer(g, layer, k) == {}
    ensures ExpandSearch(g, targets, layer, fuel) == OutOfFuel ==>
              forall k: nat :: k <= fuel ==> Layer(g, layer, k) != {}
    decreases fuel
  {
    if !Hits(targets, layer) && layer != {} && fuel > 0 {
      var next := Successors(g, layer);
      ExpandSearchExhausts(g, targets, next, fuel - 1);
      if ExpandSearch(g, targets, next, fuel - 1) == Exhausted {
        var k: nat :| k <= fuel - 1 && Layer(g, next, k) == {};
        LayerShift(g, layer, k);
        assert Layer(g, layer, k + 1) == {};
      }
      if ExpandSearch(g, targets, next, fuel - 1) == OutOfFuel {
        forall k: nat | k <= fuel ensures Layer(g, layer, k) != {} {
          if k > 0 {
            LayerShift(g, layer, k - 1);
          }
        }
      }
    } else if layer == {} && !Hits(targets, layer) {
      assert Layer(g, layer, 0) == {};
    } else if fuel == 0 && !Hits(targets, layer) {
      forall k: nat | k <= fuel ensures Layer(g, layer, k) != {} {
        assert Layer(g, layer, k) == layer;
      }
    }
  }

  // ---- Reachability with a visited set ------------------------------------------

  /** Every name some node links to: no expansion reaches anything else. */
  function Universe(g: Links): set<string> {
    set f, n | f in g && n in g[f] :: n
  }

  lemma SuccessorsInUniverse(g: Links, c: set<string>)
    ensures Successors(g, c) <= Universe(g)
  {
  }

  lemma {:induction false} SubsetSize(a: set<string>, b: set<string>)
    requires a <= b
    ensures |a| <= |b|
    decreases |a|
  {
    if a != {} {
      var x :| x in a;
      SubsetSize(a - {x}, b - {x});
    }
  }

  /** Adding a new name of the universe leaves fewer names to add. */
  lemma ClosureStepShrinks(g: Links, c: set<string>)
    requires !(c + Successors(g, c) <= c)
    ensures |Universe(g) - (c + Successors(g, c))| < |Universe(g) - c|
  {
    var next := c + Successors(g, c);
    SuccessorsInUniverse(g, c);
    var x :| x in next && x !in c;
    var u := Universe(g);
    assert u - next <= (u - c) - {x};
    SubsetSize(u - next, (u - c) - {x});
  }

  /** Adding the successors of `c` until nothing new appears: the nodes reachable from `c`. */
  function Closure(g: Links, c: set<string>): (r: set<string>)
    ensures c <= r
    ensures Successors(g, r) <= r
    decreases |Universe(g) - c|
  {
    var next := c + Successors(g, c);
    if next <= c then c
    else
      ClosureStepShrinks(g, c);
      Closure(g, next)
  }

  /** Some node reachable from `start` is a target. */
  function Reaches(g: Links, targets: set<string>, start: set<string>): bool {
    Hits(targets, Closure(g, start))
  }

  lemma {:induction false} LayersInClosed(g: Links, start: set<string>, c: set<string>, k: nat)
    requires start <= c && Successors(g, c) <= c
    ensures Layer(g, start, k) <= c
    decreases k
  {
    if k > 0 {
      LayersInClosed(g, start, c, k - 1);
    }
  }

  /** `n` lies in some layer of the enumeration from `start`. */
  ghost predicate InSomeLayer(g: Links, start: set<string>, n: string) {
    exists k: nat :: n in Layer(g, start, k)
  }

  lemma StepInLayers(g: Links, start: set<string>, f: string, n: string)
    requires InSomeLayer(g, start, f) && f in g && n in g[f]
    ensures InSomeLayer(g, start, n)
  {
    var k: nat :| f in Layer(g, start, k);
    assert n in Layer(g, start, k + 1);
  }

  lemma {:induction false} ClosureInLayers(g: Links, start: set<string>, c: set<string>)
    requires forall n :: n in c ==> InSomeLayer(g, start, n)
    ensures forall n :: n in Closure(g, c) ==> InSomeLayer(g, start, n)
    decreases |Universe(g) - c|
  {
    var next := c + Successors(g, c);
    if !(next <= c) {
      forall n | n in Successors(g, c) ensures InSomeLayer(g, start, n) {
        var f :| f in c && f in g && n in g[f];
        StepInLayers(g, start, f, n);
      }
      ClosureStepShrinks(g, c);
      ClosureInLayers(g, start, next);
      assert Closure(g, c) == Closure(g, next);
    } else {
      assert Closure(g, c) == c;
    }
  }

  /** The closure reaches a target exactly when some layer of the enumeration holds one. */
  lemma ReachesIffSomeLayer(g: Links, targets: set<string>, start: set<string>)
    ensures Reaches(g, targets, start) <==> exists k: nat :: Hits(targets, Layer(g, start, k))
  {
    var c := Closure(g, start);
    forall n | n in start ensures InSomeLayer(g, start, n) {
      assert n in Layer(g, start, 0);
    }
    ClosureInLayers(g, start, start);
    if Reaches(g, targets, start) {
      var n :| n in c * targets;
      assert InSomeLayer(g, start, n);
      var k: nat :| n in Layer(g, start, k);
      assert n in Layer(g, start, k) * targets;
    }
    if exists k: nat :: Hits(targets, Layer(g, start, k)) {
      var k: nat :| Hits(targets, Layer(g, start, k));
      LayersInClosed(g, start, c, k);
      var n :| n in Layer(g, start, k) * targets;
      assert n in c * targets;
    }
  }

  /**
    The closure reaches a target exactly when the enumeration as written finds one given
    enough steps; when it reaches none, the enumeration either ends or runs forever.
  */
  lemma ReachesIffFound(g: Links, targets: set<string>, start: set<string>)
    ensures Reaches(g, targets, start) <==> exists fuel: nat :: ExpandSearch(g, targets, start, fuel) == Found
  {
    ReachesIffSomeLayer(g, targets, start);
    if Reaches(g, targets, start) {
      var k: nat :| Hits(targets, Layer(g, start, k));
      ExpandSearchFinds(g, targets, start, k);
      assert exists j: nat :: j <= k && Hits(targets, Layer(g, start, j));
    }
    forall fuel: nat | ExpandSearch(g, targets, start, fuel) == Found
      ensures Reaches(g, targets, start)
    {
      ExpandSearchFinds(g, targets, start, fuel);
    }
  }

  lemma {:induction false} LayerAdd(g: Links, start: set<string>, k: nat, j: nat)
    ensures Layer(g, start, k + j) == Layer(g, Layer(g, start, k), j)
    decreases j
  {
    if j > 0 {
      LayerAdd(g, start, k, j - 1);
    }
  }

  /**
    When the enumeration as written does end, its answer is right: it finds a target
    only if one is reachable, and it runs dry only if none is.
  */
  lemma EndedSearchIsRight(g: Links, targets: set<string>, start: set<string>, fuel: nat)
    ensures ExpandSearch(g, targets, start, fuel) == Found ==> Reaches(g, targets, start)
    ensures ExpandSearch(g, targets, start, fuel) == Exhausted ==> !Reaches(g, targets, start)
  {
    ReachesIffFound(g, targets, start);
    if ExpandSearch(g, targets, start, fuel) == Found {
      assert exists f: nat :: ExpandSearch(g, targets, start, f) == Found;
    }
    if ExpandSearch(g, targets, start, fuel) == Exhausted {
      ExpandSearchExhausts(g, targets, start, fuel);
      ExpandSearchFinds(g, targets, start, fuel);
      var k: nat :| k <= fuel && Layer(g, start, k) == {};
      ReachesIffSomeLayer(g, targets, start);
      forall j: nat ensures !Hits(targets, Layer(g, start, j)) {
        if j > k {
          LayerAdd(g, start, k, j - k);
          EmptyLayers(g, j - k);
        }
      }
    }
  }
}
