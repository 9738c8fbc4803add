/** Call sequences on a pool, each proved from the operations' contracts
    alone: what a caller of the pool observes. */
module Scenarios {
  import Options
  import opened Tables
  import opened Pooling

  /** With capacity 0 every Open is an overflow that leaves the counter at 0,
      but Close still decrements it: an Open followed by a Close leaves the
      counter at -1. */
  method ZeroCapacityOpenClose() returns (size: int)
    ensures size == -1
  {
    var p := new Pool.Pconnect(0);
    var d := p.Open("db", [], true);
    var scheduled := d.Close();
    size := p.curPoolSize;
  }

  /** Capacity 2: open c1 and c2, close c1, open again: the second Open hands
      back c1 itself (no new handle), and the counter is back at 2. */
  method ReuseScenario() returns (c1: DBP?, again: DBP?, size: int)
    ensures c1 != null && again == c1 && size == 2
  {
    var p := new Pool.Pconnect(2);
    c1 := p.Open("D", [], true);
    var c2 := p.Open("D", [], true);
    assert p.usedPool["D"] == [c1, c2];
    var s1 := c1.Close();
    assert p.availablePool["D"] == [c1];
    again := p.Open("D", [], true);
    size := p.curPoolSize;
  }

  /** Capacity 2: open c1 and c2 and close both. The counter is back at 0
      and both connections are idle, c1 first. */
  method TwoIdle() returns (p: Pool, c1: DBP, c2: DBP)
    ensures fresh(p) && p.Valid() && !p.released && p.maxPoolSize == 2 && p.curPoolSize == 0
    ensures c1 != c2 && c1.pool == p && c2.pool == p && c1.con == "D" && c2.con == "D"
    ensures "D" in p.availablePool && p.availablePool["D"] == [c1, c2]
    ensures "D" !in p.usedPool
  {
    p := new Pool.Pconnect(2);
    var d1 := p.Open("D", [], true);
    var d2 := p.Open("D", [], true);
    c1, c2 := d1, d2;
    assert p.usedPool["D"] == [c1, c2];
    var s1 := c1.Close();
    assert p.usedPool["D"] == [c2];
    var s2 := c2.Close();
  }

  /** After TwoIdle both eviction steps run: no idle connection is left for
      "D", and the counter stays at 0. */
  method EvictionScenario() returns (size: int, idleLeft: bool)
    ensures size == 0 && !idleLeft
  {
    var p, c1, c2 := TwoIdle();
    c1.Timeout();
    assert p.availablePool["D"] == [c2];
    c2.Timeout();
    size := p.curPoolSize;
    idleLeft := "D" in p.availablePool;
  }

  /** Capacity 1: c1 is open and tracked when an overflow connection c2 is
      opened. Closing c2 finds `usedPool["D"]` but not c2 in it, so the front
      entry c1, still held by its caller, is moved to the idle list, and the
      counter drops to 0. */
  method OverflowCloseScenario() returns (c1Idle: bool, c1Used: bool, size: int)
    ensures c1Idle && !c1Used && size == 0
  {
    var p := new Pool.Pconnect(1);
    var c1 := p.Open("D", [], true);
    var c2 := p.Open("D", [], true);
    assert p.usedPool["D"] == [c1];
    var s := c2.Close();
    c1Idle := "D" in p.availablePool && c1 in p.availablePool["D"];
    c1Used := "D" in p.usedPool;
    size := p.curPoolSize;
  }

  /** After TwoIdle, c1 and c2 are both idle (c1 first) when c1 is reused. The
      eviction step scheduled by c1's Close then no longer finds c1 among the
      idle connections and evicts the front entry, c2, instead. */
  method StaleTimeoutScenario() returns (reused: bool, c2Idle: bool)
    ensures reused && !c2Idle
  {
    var p, c1, c2 := TwoIdle();
    var c3 := p.Open("D", [], true);
    reused := c3 == c1;
    assert p.availablePool["D"] == [c2];
    c1.Timeout();
    c2Idle := "D" in p.availablePool;
  }

  /** Capacity 1: c1 is opened and closed twice. The second Close no longer
      finds "D" in `usedPool`, so it closes c1's handle while c1 stays in
      `availablePool["D"]`, and the next Open hands out that closed handle. */
  method DoubleClose() returns (p: Pool, c1: DBP?, again: DBP?)
    ensures c1 != null && again == c1 && c1 in p.closed
    ensures "D" in p.usedPool && p.usedPool["D"] == [c1]
  {
    p := new Pool.Pconnect(1);
    c1 := p.Open("D", [], true);
    var s1 := c1.Close();
    var s2 := c1.Close();
    assert c1 in p.closed && p.availablePool["D"] == [c1];
    again := p.Open("D", [], true);
  }

  /** The idle duration of a fresh connection: 30 seconds with no options,
      0 with only an unrecognised option, and the value given by
      SetConnMaxLifetime otherwise. */
  method LifetimeScenario() returns (none: int, unknown: int, given: int)
    ensures none == 30 && unknown == 0 && given == 5
  {
    var unknownOpt := "MaxIdle" + "=" + "5";
    var givenOpt := Options.LifetimeKey + "=" + "5";
    assert Options.Admissible(unknownOpt) && Options.LifetimeOf([unknownOpt]) == 0 by {
      assert '=' !in "MaxIdle";
      Options.FieldsOfPrefixed("MaxIdle", "5");
    }
    assert Options.Admissible(givenOpt) && Options.LifetimeOf([givenOpt]) == 5 by {
      assert '=' !in Options.LifetimeKey by {
        Options.AdmissibleIff(Options.LifetimeKey);
        assert Options.Fields(Options.LifetimeKey)[0] == Options.LifetimeKey;
      }
      Options.FieldsOfPrefixed(Options.LifetimeKey, "5");
      assert Options.Atoi("5") == 5;
    }

    var p := new Pool.Pconnect(3);
    var a := p.Open("A", [], true);
    var b := p.Open("B", [unknownOpt], true);
    var c := p.Open("C", [givenOpt], true);
    none, unknown, given := a.n, b.n, c.n;
  }
}
