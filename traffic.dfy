/**
 * The traffic simulator: intersections joined by roads, and cars that
 * travel from one intersection to the next. The registries of all
 * intersections and all cars, and the id counters, belong to a `Network`
 * object; each intersection keeps the set of ids it has roads to, and each
 * car its two intersections and its progress along the road between them.
 */
module Traffic {
  import opened Wrappers

  /** The speed a new car travels at, in roads per frame. */
  const DefaultCarSpeed: real := 0.01

  /** A road graph: the ids each intersection has a road to. */
  type Graph = map<int, set<int>>

  /**
   * The graph after a road from `from` to `to`, and back when
   * `bidirectional`: only the ends' road sets grow, each by the other end.
   */
  function Linked(g: Graph, from: int, to: int, bidirectional: bool): (r: Graph)
    requires from in g && (bidirectional ==> to in g)
    ensures r.Keys == g.Keys
    ensures forall c :: c in g ==>
      r[c] == g[c] + (if c == from then {to} else {}) + (if bidirectional && c == to then {from} else {})
  {
    var g1 := g[from := g[from] + {to}];
    if bidirectional then g1[to := g1[to] + {from}] else g1
  }

  /** Every road is a two-way road between registered intersections. */
  ghost predicate Symmetric(g: Graph) {
    forall a, b :: a in g && b in g[a] ==> b in g && a in g[b]
  }

  /** A two-way connection between registered intersections keeps every road two-way. */
  lemma LinkedKeepsSymmetric(g: Graph, a: int, b: int)
    requires Symmetric(g) && a in g && b in g
    ensures Symmetric(Linked(g, a, b, true))
  {
    var r := Linked(g, a, b, true);
    forall x, y | x in r && y in r[x]
      ensures y in r && x in r[y]
    {
      if y !in g[x] {
        assert (x == a && y == b) || (x == b && y == a);
      }
    }
  }

  /** Connecting the same pair again changes nothing, since roads form a set. */
  lemma LinkedIdempotent(g: Graph, from: int, to: int, bidirectional: bool)
    requires from in g && (bidirectional ==> to in g)
    ensures Linked(Linked(g, from, to, bidirectional), from, to, bidirectional) == Linked(g, from, to, bidirectional)
  {
    var r := Linked(g, from, to, bidirectional);
    var rr := Linked(r, from, to, bidirectional);
    assert forall c :: c in rr ==> rr[c] == r[c];
  }

  /** A two-way road is a road each way. */
  lemma LinkedBothWays(g: Graph, a: int, b: int)
    requires a in g && b in g
    ensures Linked(g, a, b, true) == Linked(Linked(g, a, b, false), b, a, false)
  {
    var r := Linked(g, a, b, true);
    var rr := Linked(Linked(g, a, b, false), b, a, false);
    assert forall c :: c in rr ==> rr[c] == r[c];
  }

  /** What `connect` accepts: an intersection id, or an intersection, which stands for its id. */
  datatype Endpoint = ById(id: int) | ByNode(node: Intersection)

  function IdOf(e: Endpoint): int {
    match e
    case ById(id) => id
    case ByNode(node) => node.id
  }

  /** A crossing with the set of ids of the intersections it has roads to. */
  class Intersection {
    const id: int
    const posx: real
    const posy: real
    var roads: set<int>

    /** A new intersection without roads, registered in `net` under `id`. */
    constructor (net: Network, id: int, posx: real, posy: real)
      modifies net
      ensures this.id == id && this.posx == posx && this.posy == posy && roads == {}
      ensures net.intersections == old(net.intersections)[id := this]
      ensures net.cars == old(net.cars)
      ensures net.nextIntersectionId == old(net.nextIntersectionId) && net.nextCarId == old(net.nextCarId)
    {
      this.id := id;
      this.posx := posx;
      this.posy := posy;
      roads := {};
      new;
      net.intersections := net.intersections[id := this];
    }

    /**
     * Adds a road to `target` and, when `bidirectional`, asks the
     * intersection registered under that id to add a road back.
     * `warnings` counts the self-connection warnings logged; `ok` is false
     * when the way back would be asked of an id nobody registered, where
     * the program throws after the first road is added.
     */
    method Connect(net: Network, target: Endpoint, bidirectional: bool) returns (warnings: nat, ok: bool)
      requires net.Valid() && id in net.intersections && net.intersections[id] == this
      modifies this, if bidirectional && IdOf(target) in net.intersections then {net.intersections[IdOf(target)]} else {}
      ensures ok == (!bidirectional || IdOf(target) in net.intersections)
      ensures warnings == if IdOf(target) == id then (if bidirectional then 2 else 1) else 0
      ensures net.Roads() == Linked(old(net.Roads()), id, IdOf(target), bidirectional && ok)
      decreases if bidirectional then 1 else 0
    {
      var to := IdOf(target);
      warnings := if id == to then 1 else 0;
      ghost var g := net.Roads();
      roads := roads + {to};
      assert net.Roads() == Linked(g, id, to, false) by {
        assert forall i :: i in net.intersections && i != id ==> net.intersections[i] != this;
      }
      ok := true;
      if bidirectional {
        if to in net.intersections {
          var back := net.intersections[to];
          var more, _ := back.Connect(net, ById(id), false);
          warnings := warnings + more;
          LinkedBothWays(g, id, to);
        } else {
          ok := false;
        }
      }
    }

    /** One of the intersection's roads, chosen at random; `None` (undefined) when it has none. */
    method RandomConnection() returns (r: Option<int>)
      ensures r.None? <==> roads == {}
      ensures r.Some? ==> r.value in roads
    {
      if roads == {} {
        r := None;
      } else {
        HasMember(roads);
        var c :| c in roads;
        r := Some(c);
      }
    }
  }

  /** Where a car is: its progress along the road from `start` to `dest`; an end may be undefined. */
  datatype Position = Position(progress: real, start: Option<int>, dest: Option<int>)

  /**
   * One frame of a car at speed `speed` moving it from `p` to `p'`: its
   * progress grows by its speed and, once a whole road is travelled, the
   * car sets off from its destination along one of that intersection's
   * roads, towards `None` (undefined) when it has none. A destination
   * nobody registered makes the program throw (`ok` false) after the
   * start has been overwritten.
   */
  ghost predicate CarStepped(g: Graph, speed: real, p: Position, p': Position, ok: bool) {
    var q := p.progress + speed;
    if q < 1.0 then
      ok && p' == p.(progress := q)
    else if p.dest.Some? && p.dest.value in g then
      && ok && p'.progress == 0.0 && p'.start == p.dest
      && (if g[p.dest.value] == {} then p'.dest == None else p'.dest.Some? && p'.dest.value in g[p.dest.value])
    else
      !ok && p' == Position(q, p.dest, p.dest)
  }

  /** A car with a non-negative speed that steps without error stays part way along a road. */
  lemma SteppedProgressInRange(g: Graph, speed: real, p: Position, p': Position)
    requires 0.0 <= p.progress < 1.0 && 0.0 <= speed
    requires CarStepped(g, speed, p, p', true)
    ensures 0.0 <= p'.progress < 1.0
  {
  }

  /** A car that finishes its road sets off from its destination, along one of its roads when it is registered. */
  lemma SteppedFollowsRoads(g: Graph, speed: real, p: Position, p': Position, ok: bool)
    requires CarStepped(g, speed, p, p', ok)
    requires p.progress + speed >= 1.0 && p.dest.Some?
    ensures p'.start == p.dest
    ensures ok <==> p.dest.value in g
    ensures ok && p'.dest != None ==> p'.dest.value in g[p.dest.value]
  {
  }

  /** A non-empty set has a member. */
  lemma HasMember(s: set<int>)
    requires s != {}
    ensures exists y :: y in s
  {
    if forall y :: y !in s {
      assert false;
    }
  }

  /** Every non-empty set of ids has a least one. */
  lemma {:induction false} LeastExists(s: set<int>)
    requires s != {}
    ensures exists m :: m in s && forall x :: x in s ==> m <= x
    decreases s
  {
    HasMember(s);
    var y :| y in s;
    var rest := s - {y};
    if rest == {} {
      forall x | x in s
        ensures y <= x
      {
        assert x !in rest;
      }
    } else {
      LeastExists(rest);
      var m :| m in rest && forall x :: x in rest ==> m <= x;
      var least := if y < m then y else m;
      forall x | x in s
        ensures least <= x
      {
        if x != y {
          assert x in rest;
        }
      }
    }
  }

  /** A car travelling from intersection `start` to intersection `dest`. */
  class Car {
    const id: int
    var speed: real
    var start: Option<int>
    var dest: Option<int>
    var progress: real

    function At(): Position
      reads this
    {
      Position(progress, start, dest)
    }

    /** A new car at the start of the road from `start` to `dest`, registered in `net` under `id`. */
    constructor (net: Network, id: int, start: int, dest: int)
      modifies net
      ensures this.id == id && speed == DefaultCarSpeed && progress == 0.0
      ensures this.start == Some(start) && this.dest == Some(dest)
      ensures net.cars == old(net.cars)[id := this]
      ensures net.intersections == old(net.intersections)
      ensures net.nextIntersectionId == old(net.nextIntersectionId) && net.nextCarId == old(net.nextCarId)
    {
      this.id := id;
      speed := DefaultCarSpeed;
      this.start := Some(start);
      this.dest := Some(dest);
      progress := 0.0;
      new;
      net.cars := net.cars[id := this];
    }

    /** The car's frame, as `CarStepped` describes it over the roads of `net`. */
    method Update(net: Network) returns (ok: bool)
      modifies this
      ensures speed == old(speed)
      ensures CarStepped(net.Roads(), speed, old(At()), At(), ok)
    {
      progress := progress + speed;
      ok := true;
      if progress >= 1.0 {
        var from := dest;
        start := from;
        if from.Some? && from.value in net.intersections {
          dest := net.intersections[from.value].RandomConnection();
          progress := 0.0;
        } else {
          ok := false;
        }
      }
    }
  }

  /** The registries of intersections and cars, and the counters that hand out their ids. */
  class Network {
    var intersections: map<int, Intersection>
    var cars: map<int, Car>
    var nextIntersectionId: int
    var nextCarId: int

    /** Every intersection and car is registered under its own id. */
    ghost predicate Valid()
      reads this, intersections.Values, cars.Values
    {
      && (forall i :: i in intersections ==> intersections[i].id == i)
      && (forall k :: k in cars ==> cars[k].id == k)
    }

    /** Every registered id was handed out by the counters. */
    ghost predicate Issued()
      reads this
    {
      && (forall i :: i in intersections ==> 0 <= i < nextIntersectionId)
      && (forall k :: k in cars ==> 0 <= k < nextCarId)
    }

    /** The road graph of the registered intersections. */
    function Roads(): Graph
      reads this, intersections.Values
    {
      map i | i in intersections :: intersections[i].roads
    }

    /** An empty network whose counters start at 0. */
    constructor ()
      ensures intersections == map[] && cars == map[]
      ensures nextIntersectionId == 0 && nextCarId == 0
      ensures Valid() && Issued()
    {
      intersections := map[];
      cars := map[];
      nextIntersectionId := 0;
      nextCarId := 0;
    }

    /** The next intersection id; the ids handed out are 0, 1, 2, ... */
    method NewIntersectionId() returns (id: int)
      modifies this`nextIntersectionId
      ensures id == old(nextIntersectionId) && nextIntersectionId == id + 1
      ensures old(Issued()) ==> Issued() && id !in intersections
    {
      id := nextIntersectionId;
      nextIntersectionId := nextIntersectionId + 1;
    }

    /** The next car id; the ids handed out are 0, 1, 2, ... */
    method NewCarId() returns (id: int)
      modifies this`nextCarId
      ensures id == old(nextCarId) && nextCarId == id + 1
      ensures old(Issued()) ==> Issued() && id !in cars
    {
      id := nextCarId;
      nextCarId := nextCarId + 1;
    }

    /**
     * One frame for every car, in increasing id order, which is the order
     * `for...in` visits the non-negative integer ids the counter issues.
     * When a car throws, the cars after it are not updated and `ok` is false.
     */
    method Update() returns (ok: bool)
      requires Valid() && Issued()
      modifies cars.Values
      ensures ok ==> forall k :: k in cars ==> CarStepped(Roads(), cars[k].speed, old(cars[k].At()), cars[k].At(), true)
      ensures !ok ==> exists f :: (
        && f in cars
        && CarStepped(Roads(), cars[f].speed, old(cars[f].At()), cars[f].At(), false)
        && (forall k :: k in cars && k < f ==> CarStepped(Roads(), cars[k].speed, old(cars[k].At()), cars[k].At(), true))
        && (forall k :: k in cars && f < k ==> unchanged(cars[k])))
    {
      var pending := cars.Keys;
      ghost var done: set<int> := {};
      ok := true;
      while pending != {}
        invariant done + pending == cars.Keys && done !! pending
        invariant forall k, j :: k in done && j in pending ==> k < j
        invariant forall k :: k in pending ==> unchanged(cars[k])
        invariant forall k :: k in done ==>
          CarStepped(Roads(), cars[k].speed, old(cars[k].At()), cars[k].At(), true)
        decreases pending
      {
        LeastExists(pending);
        var k :| k in pending && forall j :: j in pending ==> k <= j;
        var car := cars[k];
        assert forall j :: j in cars && j != k ==> cars[j] != car;
        ok := car.Update(this);
        if !ok {
          return;
        }
        pending := pending - {k};
        done := done + {k};
      }
    }
  }
}
