/** The connection pool of go_ibm_db: a Pool object holding the idle and the
    checked-out connections per connection string, a capacity and a counter,
    and the pooled connection DBP, whose Close hands it back and whose Timeout
    evicts an idle connection. Each operation runs under the pool's mutex in
    the source, so each is one atomic method here. */
module Pooling {
  import Options
  import opened Tables

  /** A pooled connection. Its connection string, idle duration and pool are
      set when it is opened and never changed afterwards; its raw driver
      handle is represented by membership in its pool's `closed` set. */
  class DBP {
    const con: string
    const n: int
    const pool: Pool

    constructor (con: string, n: int, pool: Pool)
      ensures this.con == con && this.n == n && this.pool == pool
    {
      this.con := con;
      this.n := n;
      this.pool := pool;
    }

    /** Hands the connection back (pooling.go:122-154). The counter drops by
        one whatever happens. When `usedPool[con]` exists, the entry at the
        scanned position moves to the end of `availablePool[con]` and an
        eviction of this connection is scheduled (`scheduled`); otherwise the
        connection's own handle is closed. */
    method Close() returns (ghost scheduled: bool)
      requires pool.Valid()
      modifies pool
      ensures pool.Valid()
      ensures pool.curPoolSize == old(pool.curPoolSize) - 1
      ensures pool.released == old(pool.released)
      ensures scheduled == (con in old(pool.usedPool))
      ensures con in old(pool.usedPool) ==>
                pool.Snapshot() == Return(old(pool.Snapshot()), con, this) &&
                pool.closed == old(pool.closed)
      ensures con in old(pool.usedPool) && this in old(pool.usedPool)[con] ==>
                pool.availablePool == Append(old(pool.availablePool), con, this) &&
                pool.usedPool == Drop(old(pool.usedPool), con, this)
      ensures con in old(pool.usedPool) && this !in old(pool.usedPool)[con] ==>
                pool.availablePool == Append(old(pool.availablePool), con, old(pool.usedPool)[con][0]) &&
                pool.usedPool == RemoveAt(old(pool.usedPool), con, 0)
      ensures con !in old(pool.usedPool) ==>
                pool.Snapshot() == old(pool.Snapshot()) &&
                pool.closed == old(pool.closed) + {this}
      ensures forall k :: k != con ==>
                Get(pool.availablePool, k) == Get(old(pool.availablePool), k) &&
                Get(pool.usedPool, k) == Get(old(pool.usedPool), k)
    {
      pool.curPoolSize := pool.curPoolSize - 1;
      if con in pool.usedPool {
        ghost var before := pool.Snapshot();
        var avail, used := ReturnEntry(pool.availablePool, pool.usedPool, con, this);
        ReturnPreserves(before, con, this);
        ReturnUntracked(before, con, this);
        OwnedReturn(before, con, this, pool);
        if this in before.used[con] {
          ReturnTracked(before, con, this);
        }
        pool.availablePool, pool.usedPool := avail, used;
        // `go d.Timeout()`: the eviction step is a later call of Timeout
        scheduled := true;
      } else {
        pool.closed := pool.closed + {this};
        scheduled := false;
      }
    }

    /** The eviction step that runs once this connection's idle duration has
        passed (pooling.go:157-186). When `availablePool[con]` exists, the
        entry at the scanned position is taken out and its handle closed;
        otherwise nothing happens. `usedPool` and the counter are never
        touched. */
    method Timeout()
      requires pool.Valid()
      modifies pool
      ensures pool.Valid()
      ensures pool.usedPool == old(pool.usedPool)
      ensures pool.curPoolSize == old(pool.curPoolSize) && pool.released == old(pool.released)
      ensures con in old(pool.availablePool) ==>
                pool.availablePool == Evict(old(pool.availablePool), con, this) &&
                pool.closed == old(pool.closed) + {Evicted(old(pool.availablePool), con, this)}
      ensures con in old(pool.availablePool) && this in old(pool.availablePool)[con] ==>
                pool.availablePool == Drop(old(pool.availablePool), con, this) &&
                pool.closed == old(pool.closed) + {this}
      ensures con in old(pool.availablePool) && this !in old(pool.availablePool)[con] ==>
                pool.availablePool == RemoveAt(old(pool.availablePool), con, 0) &&
                pool.closed == old(pool.closed) + {old(pool.availablePool)[con][0]}
      ensures con !in old(pool.availablePool) ==>
                pool.availablePool == old(pool.availablePool) && pool.closed == old(pool.closed)
    {
      // the wait on time.After(n) has already happened
      if con in pool.availablePool {
        ghost var before := pool.Snapshot();
        var avail, dbpt := EvictEntry(pool.availablePool, con, this);
        EvictPreserves(before, con, this);
        OwnedEvict(before.available, con, this, pool);
        if this in before.available[con] {
          EvictTracked(before, con, this);
        }
        pool.availablePool := avail;
        pool.closed := pool.closed + {dbpt};
      }
    }
  }

  /** Every connection in t is filed under its own connection string and
      belongs to pool p. */
  ghost predicate Owned(t: Table<DBP>, p: Pool) {
    forall k, x :: k in t && x in t[k] ==> x.con == k && x.pool == p
  }

  lemma OwnedAppend(t: Table<DBP>, k: string, x: DBP, p: Pool)
    requires Owned(t, p) && x.con == k && x.pool == p
    ensures Owned(Append(t, k, x), p)
  {
  }

  lemma OwnedRemoveAt(t: Table<DBP>, k: string, pos: nat, p: Pool)
    requires Owned(t, p) && k in t && pos < |t[k]|
    ensures Owned(RemoveAt(t, k, pos), p)
  {
    var r := RemoveAt(t, k, pos);
    forall k': string, x: DBP | k' in r && x in r[k'] ensures x.con == k' && x.pool == p {
      if k' == k {
        assert x in t[k];
      } else {
        assert r[k'] == t[k'];
      }
    }
  }

  lemma OwnedReturn(st: State<DBP>, c: string, d: DBP, p: Pool)
    requires Owned(st.available, p) && Owned(st.used, p) && c in st.used && |st.used[c]| > 0
    ensures Owned(Return(st, c, d).available, p) && Owned(Return(st, c, d).used, p)
  {
    var pos := LastIndex(st.used[c], d);
    assert st.used[c][pos] in st.used[c];
    OwnedAppend(st.available, c, st.used[c][pos], p);
    OwnedRemoveAt(st.used, c, pos, p);
  }

  lemma OwnedReuse(st: State<DBP>, c: string, p: Pool)
    requires Owned(st.available, p) && Owned(st.used, p) && c in st.available && |st.available[c]| > 0
    ensures Owned(Reuse(st, c).available, p) && Owned(Reuse(st, c).used, p)
  {
    assert st.available[c][0] in st.available[c];
    OwnedRemoveAt(st.available, c, 0, p);
    OwnedAppend(st.used, c, st.available[c][0], p);
  }

  lemma OwnedEvict(t: Table<DBP>, c: string, d: DBP, p: Pool)
    requires Owned(t, p) && c in t && |t[c]| > 0
    ensures Owned(Evict(t, c, d), p)
  {
    OwnedRemoveAt(t, c, LastIndex(t[c], d), p);
  }

  /** The pool: idle connections in `availablePool`, checked-out ones in
      `usedPool`, both FIFO per connection string. `released` stands for the
      two maps having been set to nil by Release; `closed` holds every
      connection whose raw handle has been closed. */
  class Pool {
    var availablePool: Table<DBP>
    var usedPool: Table<DBP>
    const maxPoolSize: int
    var curPoolSize: int
    var released: bool
    ghost var closed: set<DBP>

    /** The two tables as a value. */
    function Snapshot(): State<DBP>
      reads this
    {
      State(availablePool, usedPool)
    }

    /** The pool's invariant: the tables are well formed and owned, nil maps
        hold nothing, and the counter never exceeds the capacity (or 0 when
        the capacity is not positive). */
    ghost predicate Valid()
      reads this
    {
      && WellFormed(Snapshot())
      && Owned(availablePool, this) && Owned(usedPool, this)
      && (released ==> availablePool == map[] && usedPool == map[])
      && curPoolSize <= (if maxPoolSize > 0 then maxPoolSize else 0)
    }

    /** Pconnect: an empty pool of the given capacity (pooling.go:30-39). */
    constructor Pconnect(poolSize: int)
      ensures Valid()
      ensures maxPoolSize == poolSize && curPoolSize == 0
      ensures availablePool == map[] && usedPool == map[]
      ensures !released && closed == {}
    {
      availablePool := map[];
      usedPool := map[];
      maxPoolSize := poolSize;
      curPoolSize := 0;
      released := false;
      closed := {};
    }

    /** Open (pooling.go:43-119): resolves the idle duration from the
        options, then under capacity counts one more connection and either
        reuses the oldest idle connection for connStr or opens a fresh tracked
        one; at capacity it opens an untracked overflow connection. `driverOk`
        is whether the driver's open succeeds; on failure null is returned
        (after the counter was raised, under capacity). */
    method Open(connStr: string, options: seq<string>, driverOk: bool) returns (d: DBP?)
      requires Valid()
      requires forall i :: 0 <= i < |options| ==> Options.Admissible(options[i])
      // writing to a nil usedPool panics
      requires released && curPoolSize < maxPoolSize ==> !driverOk
      modifies this
      ensures Valid()
      ensures released == old(released) && closed == old(closed)
      ensures old(curPoolSize) < maxPoolSize ==> curPoolSize == old(curPoolSize) + 1
      ensures old(curPoolSize) < maxPoolSize && connStr in old(availablePool) ==>
                d == old(availablePool)[connStr][0] &&
                Snapshot() == Reuse(old(Snapshot()), connStr)
      ensures old(curPoolSize) < maxPoolSize && connStr !in old(availablePool) && driverOk ==>
                d != null && fresh(d) && d.con == connStr && d.pool == this &&
                d.n == Options.LifetimeOf(options) &&
                Snapshot() == Track(old(Snapshot()), connStr, d)
      ensures old(curPoolSize) < maxPoolSize && connStr !in old(availablePool) && !driverOk ==>
                d == null && Snapshot() == old(Snapshot())
      ensures old(curPoolSize) >= maxPoolSize ==>
                curPoolSize == old(curPoolSize) && Snapshot() == old(Snapshot()) &&
                (d != null <==> driverOk)
      ensures old(curPoolSize) >= maxPoolSize && d != null ==>
                fresh(d) && d.con == connStr && d.pool == this && d.n == 0 &&
                d !in Members(availablePool) && d !in Members(usedPool)
    {
      var time := Options.ResolveLifetime(options);
      var avail, used := availablePool, usedPool;
      ghost var before := State(avail, used);
      d := null;

      if curPoolSize < maxPoolSize {
        curPoolSize := curPoolSize + 1;

        if connStr in avail {
          var val := avail[connStr];
          var dbpo := val[0];
          if |val| > 1 {
            assert val[..0] + val[1..] == val[1..];
            avail := avail[connStr := val[1..]];
            used := Append(used, connStr, dbpo);
          } else {
            used := Append(used, connStr, dbpo);
            avail := avail - {connStr};
          }
          // SetConnMaxLifetime reaches the driver handle only; dbpo.n is left as it was
          assert State(avail, used) == Reuse(before, connStr);
          ReusePreserves(before, connStr);
          OwnedReuse(before, connStr, this);
          d := dbpo;
        } else if driverOk {
          var dbi := new DBP(connStr, time, this);
          assert dbi !in Members(avail) && dbi !in Members(used);
          TrackPreserves(before, connStr, dbi);
          OwnedAppend(used, connStr, dbi, this);
          used := Append(used, connStr, dbi);
          d := dbi;
        }
        availablePool, usedPool := avail, used;
      } else if driverOk {
        // the overflow connection's n keeps Go's zero value
        var dbi := new DBP(connStr, 0, this);
        assert dbi !in Members(avail) && dbi !in Members(used);
        d := dbi;
      }
    }

    /** Release (pooling.go:189-209): closes the handle of every connection
        in both maps, then sets both maps to nil. The counter is left as it
        is, and a second Release finds nil maps and closes nothing. */
    method Release()
      requires Valid()
      modifies this
      ensures Valid() && released
      ensures availablePool == map[] && usedPool == map[]
      ensures curPoolSize == old(curPoolSize)
      ensures closed == old(closed) + Members(old(availablePool)) + Members(old(usedPool))
      ensures old(released) ==> closed == old(closed)
    {
      if !released {
        CloseAll(availablePool);
        availablePool := map[];
        CloseAll(usedPool);
        usedPool := map[];
        released := true;
      }
    }

    /** The nested range loops of Release over one map: every handle in every
        slice is closed. */
    method CloseAll(t: Table<DBP>)
      modifies this`closed
      ensures closed == old(closed) + Members(t)
    {
      var keys := t.Keys;
      while keys != {}
        invariant keys <= t.Keys
        invariant closed == old(closed) + Members(t - keys)
        decreases keys
      {
        var k :| k in keys;
        var vala := t[k];
        var j := 0;
        while j < |vala|
          invariant 0 <= j <= |vala|
          invariant closed == old(closed) + Members(t - keys) + set x | x in vala[..j]
        {
          closed := closed + {vala[j]};
          assert vala[..j + 1] == vala[..j] + [vala[j]];
          j := j + 1;
        }
        assert vala[..j] == vala;
        MembersOneMoreKey(t, keys, k);
        keys := keys - {k};
      }
      assert t - keys == t;
    }
  }
}
