/** The bookkeeping of the connection pool, as values: two tables from a
    connection string to a FIFO slice of connections (the idle ones and the
    checked-out ones), and the transitions Open, Close and Timeout apply to
    them. Connections are compared by identity, so the element type only
    needs equality. */
module Tables {

  /** A Go `map[string][]*DBP`: connection string to slice of connections. */
  type Table<T> = map<string, seq<T>>

  /** The pool's two tables: `availablePool` and `usedPool`. */
  datatype State<T> = State(available: Table<T>, used: Table<T>)

  // ---------------------------------------------------------------------------
  // Slice and map primitives as the source writes them
  // ---------------------------------------------------------------------------

  /** `t[k]` as Go reads it: a missing key yields the nil (empty) slice. */
  function Get<T>(t: Table<T>, k: string): seq<T> {
    if k in t then t[k] else []
  }

  /** `t[k] = append(t[k], x)`. */
  function Append<T>(t: Table<T>, k: string, x: T): Table<T> {
    t[k := Get(t, k) + [x]]
  }

  /** Taking entry `pos` out of `t[k]`: with more than one entry, the later
      entries are shifted down by `copy` and the slice truncated; the last
      entry goes by deleting the key. */
  function RemoveAt<T>(t: Table<T>, k: string, pos: nat): Table<T>
    requires k in t && pos < |t[k]|
  {
    if |t[k]| > 1 then t[k := t[k][..pos] + t[k][pos + 1..]] else t - {k}
  }

  /** The index the source's scan over a slice leaves in `pos`: it starts at
      0 and is overwritten at every entry identical to x, so it is the last
      such index, or 0 when x is absent. */
  function LastIndex<T(==)>(s: seq<T>, x: T): (pos: nat)
    ensures |s| > 0 ==> pos < |s|
    ensures x in s ==> s[pos] == x && forall j :: pos < j < |s| ==> s[j] != x
    ensures x !in s ==> pos == 0
  {
    if |s| == 0 then 0
    else if s[|s| - 1] == x then |s| - 1
    else LastIndex(s[..|s| - 1], x)
  }

  /** The position loop of Close and Timeout: `i` counts the entries and `pos`
      takes every index whose entry is x. */
  method FindPosition<T(==)>(s: seq<T>, x: T) returns (pos: nat)
    ensures pos == LastIndex(s, x)
  {
    pos := 0;
    var i := 0;
    while i < |s|
      invariant 0 <= i <= |s|
      invariant pos == LastIndex(s[..i], x)
    {
      if s[i] == x {
        pos := i;
      }
      assert s[..i + 1][..i] == s[..i];
      i := i + 1;
    }
    assert s[..i] == s;
  }

  // ---------------------------------------------------------------------------
  // The invariant
  // ---------------------------------------------------------------------------

  /** Every connection held anywhere in t. */
  ghost function Members<T>(t: Table<T>): set<T> {
    set k, x | k in t && x in t[k] :: x
  }

  lemma MemberAt<T>(t: Table<T>, k: string, i: nat)
    requires k in t && i < |t[k]|
    ensures t[k][i] in Members(t)
  {
    assert t[k][i] in t[k];
  }

  /** Moving key k from the pending keys to the done ones adds the members of t[k]. */
  lemma MembersOneMoreKey<T>(t: Table<T>, keys: set<string>, k: string)
    requires k in keys && keys <= t.Keys
    ensures Members(t - (keys - {k})) == Members(t - keys) + set x | x in t[k]
  {
    var before, after := t - keys, t - (keys - {k});
    forall y | y in Members(after) ensures y in Members(before) + set x | x in t[k] {
      var k' :| k' in after && y in after[k'];
      if k' != k {
        assert k' in before && y in before[k'];
      }
    }
    forall y | y in Members(before) + set x | x in t[k] ensures y in Members(after) {
      if y in Members(before) {
        var k' :| k' in before && y in before[k'];
        assert k' in after && y in after[k'];
      } else {
        assert k in after && y in after[k];
      }
    }
  }

  /** No key maps to an empty slice. */
  ghost predicate NoEmpty<T>(t: Table<T>) {
    forall k :: k in t ==> |t[k]| > 0
  }

  /** No connection occurs twice in t, under one key or under two. */
  ghost predicate Unique<T>(t: Table<T>) {
    forall k1, i, k2, j ::
      k1 in t && k2 in t && 0 <= i < |t[k1]| && 0 <= j < |t[k2]| && t[k1][i] == t[k2][j]
      ==> k1 == k2 && i == j
  }

  /** The invariant the pool's operations keep: no empty slices, and no
      connection identity twice across both tables combined. */
  ghost predicate WellFormed<T>(st: State<T>) {
    && NoEmpty(st.available) && NoEmpty(st.used)
    && Unique(st.available) && Unique(st.used)
    && Members(st.available) !! Members(st.used)
  }

  // ---------------------------------------------------------------------------
  // The transitions
  // ---------------------------------------------------------------------------

  /** Open under capacity with an idle connection for c: the front (oldest)
      entry of `available[c]` moves to the end of `used[c]`. */
  function Reuse<T>(st: State<T>, c: string): (r: State<T>)
    requires c in st.available && |st.available[c]| > 0
    ensures Get(r.available, c) == st.available[c][1..]
    ensures c in r.available <==> |st.available[c]| > 1
    ensures Get(r.used, c) == Get(st.used, c) + [st.available[c][0]]
    ensures r.available - {c} == st.available - {c}
    ensures r.used - {c} == st.used - {c}
  {
    var s := st.available[c];
    assert s[..0] + s[1..] == s[1..];
    State(RemoveAt(st.available, c, 0), Append(st.used, c, s[0]))
  }

  /** Open under capacity with no idle connection for c: the freshly opened
      connection x is appended to `used[c]`. */
  function Track<T>(st: State<T>, c: string, x: T): (r: State<T>)
    ensures r.available == st.available
    ensures c in r.used && r.used[c] == Get(st.used, c) + [x]
    ensures r.used - {c} == st.used - {c}
  {
    State(st.available, Append(st.used, c, x))
  }

  /** Close of d when `used[c]` exists: the entry at the scanned position
      (d itself when present, the front entry otherwise) leaves `used[c]` and
      is appended to `available[c]`. */
  function Return<T(==)>(st: State<T>, c: string, d: T): (r: State<T>)
    requires c in st.used && |st.used[c]| > 0
    ensures Get(r.available, c) == Get(st.available, c) + [if d in st.used[c] then d else st.used[c][0]]
    ensures c in r.used <==> |st.used[c]| > 1
    ensures |Get(r.used, c)| == |st.used[c]| - 1
    ensures r.available - {c} == st.available - {c}
    ensures r.used - {c} == st.used - {c}
  {
    var pos := LastIndex(st.used[c], d);
    State(Append(st.available, c, st.used[c][pos]), RemoveAt(st.used, c, pos))
  }

  /** The connection Timeout of d closes when `available[c]` exists: d itself
      when present, the front entry otherwise. */
  function Evicted<T(==)>(available: Table<T>, c: string, d: T): (e: T)
    requires c in available && |available[c]| > 0
    ensures e in available[c]
    ensures d in available[c] ==> e == d
    ensures d !in available[c] ==> e == available[c][0]
  {
    available[c][LastIndex(available[c], d)]
  }

  /** Timeout of d when `available[c]` exists: the evicted entry leaves
      `available[c]`; `used` is not involved. */
  function Evict<T(==)>(available: Table<T>, c: string, d: T): (r: Table<T>)
    requires c in available && |available[c]| > 0
    ensures c in r <==> |available[c]| > 1
    ensures |Get(r, c)| == |available[c]| - 1
    ensures r - {c} == available - {c}
  {
    RemoveAt(available, c, LastIndex(available[c], d))
  }

  /** The slice work of Close when `used[c]` exists (pooling.go:131-149):
      with several entries, scan for d, cut the entry at the scanned position
      out of the slice and append it to `available[c]`; with one entry,
      append that entry and delete the key. */
  method ReturnEntry<T(==)>(available: Table<T>, used: Table<T>, c: string, d: T)
    returns (available': Table<T>, used': Table<T>)
    requires c in used && |used[c]| > 0
    ensures State(available', used') == Return(State(available, used), c, d)
  {
    var valc := used[c];
    if |valc| > 1 {
      var pos := FindPosition(valc, d);
      var dbpc := valc[pos];
      valc := valc[..pos] + valc[pos + 1..];
      used' := used[c := valc];
      available' := Append(available, c, dbpc);
    } else {
      var dbpc := valc[0];
      available' := Append(available, c, dbpc);
      used' := used - {c};
    }
  }

  /** The slice work of Timeout when `available[c]` exists (pooling.go:165-183):
      the same scan and cut, returning the entry whose handle is then closed. */
  method EvictEntry<T(==)>(available: Table<T>, c: string, d: T)
    returns (available': Table<T>, dbpt: T)
    requires c in available && |available[c]| > 0
    ensures available' == Evict(available, c, d)
    ensures dbpt == Evicted(available, c, d)
  {
    var valt := available[c];
    if |valt| > 1 {
      var pos := FindPosition(valt, d);
      dbpt := valt[pos];
      valt := valt[..pos] + valt[pos + 1..];
      available' := available[c := valt];
    } else {
      dbpt := valt[0];
      available' := available - {c};
    }
  }

  // ---------------------------------------------------------------------------
  // Removal by identity, the reference the positional removal is checked against
  // ---------------------------------------------------------------------------

  /** s with every occurrence of x left out, the others in their order. */
  function Without<T(==)>(s: seq<T>, x: T): seq<T> {
    if s == [] then []
    else if s[0] == x then Without(s[1..], x)
    else [s[0]] + Without(s[1..], x)
  }

  /** Without(s, x) holds no x and keeps every other entry of s. */
  lemma {:induction false} WithoutMeaning<T>(s: seq<T>, x: T)
    ensures forall i :: 0 <= i < |Without(s, x)| ==> Without(s, x)[i] != x && Without(s, x)[i] in s
    ensures forall i :: 0 <= i < |s| && s[i] != x ==> s[i] in Without(s, x)
  {
    if s != [] {
      WithoutMeaning(s[1..], x);
      var r := Without(s[1..], x);
      forall i | 0 <= i < |Without(s, x)|
        ensures Without(s, x)[i] != x && Without(s, x)[i] in s
      {
        if s[0] != x && i > 0 {
          assert Without(s, x)[i] == r[i - 1];
        }
      }
      forall i | 0 <= i < |s| && s[i] != x ensures s[i] in Without(s, x) {
        if i > 0 {
          assert s[i] == s[1..][i - 1];
        }
      }
    }
  }

  /** t with x taken out of `t[k]` by identity, and the key deleted when its
      slice empties. */
  function Drop<T(==)>(t: Table<T>, k: string, x: T): Table<T>
    requires k in t
  {
    var s := Without(t[k], x);
    if s == [] then t - {k} else t[k := s]
  }

  /** When s[i] occurs nowhere else in s, cutting out position i is leaving
      out s[i]. */
  lemma {:induction false} RemoveAtIsWithout<T>(s: seq<T>, i: nat)
    requires i < |s|
    requires forall j :: 0 <= j < |s| && j != i ==> s[j] != s[i]
    ensures s[..i] + s[i + 1..] == Without(s, s[i])
  {
    var t := s[1..];
    if i == 0 {
      forall j | 0 <= j < |t| ensures t[j] != s[0] {
        assert t[j] == s[j + 1];
      }
      WithoutAbsent(t, s[0]);
      assert s[..0] + s[1..] == t;
    } else {
      forall j | 0 <= j < |t| && j != i - 1 ensures t[j] != t[i - 1] {
        assert t[j] == s[j + 1];
      }
      RemoveAtIsWithout(t, i - 1);
      assert Without(s, s[i]) == [s[0]] + Without(t, s[i]);
      assert s[..i] == [s[0]] + t[..i - 1];
      assert s[i + 1..] == t[i..];
    }
  }

  /** Leaving out an absent entry changes nothing. */
  lemma {:induction false} WithoutAbsent<T>(s: seq<T>, x: T)
    requires forall j :: 0 <= j < |s| ==> s[j] != x
    ensures Without(s, x) == s
  {
    if s != [] {
      WithoutAbsent(s[1..], x);
      assert [s[0]] + s[1..] == s;
    }
  }

  lemma OnlyOnce<T>(t: Table<T>, k: string, i: nat)
    requires Unique(t) && k in t && i < |t[k]|
    ensures forall j :: 0 <= j < |t[k]| && j != i ==> t[k][j] != t[k][i]
  {
  }

  // ---------------------------------------------------------------------------
  // What the primitives do to the members and to the invariant
  // ---------------------------------------------------------------------------

  lemma MembersAppend<T>(t: Table<T>, k: string, x: T)
    ensures Members(Append(t, k, x)) == Members(t) + {x}
  {
    var r := Append(t, k, x);
    forall y | y in Members(r) ensures y in Members(t) + {x} {
      var k' :| k' in r && y in r[k'];
      if k' == k && y != x {
        assert y in Get(t, k);
      }
    }
    forall y | y in Members(t) + {x} ensures y in Members(r) {
      if y == x {
        assert x in r[k];
      } else {
        var k' :| k' in t && y in t[k'];
        if k' == k {
          assert y in r[k];
        } else {
          assert y in r[k'];
        }
      }
    }
  }

  lemma MembersRemoveAt<T>(t: Table<T>, k: string, pos: nat)
    requires Unique(t) && k in t && pos < |t[k]|
    ensures Members(RemoveAt(t, k, pos)) == Members(t) - {t[k][pos]}
  {
    var r := RemoveAt(t, k, pos);
    var s := t[k];
    forall y | y in Members(r) ensures y in Members(t) - {s[pos]} {
      var k' :| k' in r && y in r[k'];
      var j :| 0 <= j < |r[k']| && r[k'][j] == y;
      if k' == k {
        var j' := if j < pos then j else j + 1;
        assert s[j'] == y;
        MemberAt(t, k, j');
      } else {
        assert t[k'] == r[k'];
        MemberAt(t, k', j);
      }
    }
    forall y | y in Members(t) - {s[pos]} ensures y in Members(r) {
      var k' :| k' in t && y in t[k'];
      var j :| 0 <= j < |t[k']| && t[k'][j] == y;
      if k' == k {
        assert j != pos;
        if j < pos {
          assert r[k][j] == y;
          MemberAt(r, k, j);
        } else {
          assert r[k][j - 1] == y;
          MemberAt(r, k, j - 1);
        }
      } else {
        assert r[k'] == t[k'];
        MemberAt(r, k', j);
      }
    }
  }

  lemma UniqueAppend<T>(t: Table<T>, k: string, x: T)
    requires Unique(t) && x !in Members(t)
    ensures Unique(Append(t, k, x))
  {
    var r := Append(t, k, x);
    forall k1, i, k2, j |
      k1 in r && k2 in r && 0 <= i < |r[k1]| && 0 <= j < |r[k2]| && r[k1][i] == r[k2][j]
      ensures k1 == k2 && i == j
    {
      if k1 in t && i < |t[k1]| {
        assert t[k1][i] == r[k1][i];
        MemberAt(t, k1, i);
      }
      if k2 in t && j < |t[k2]| {
        assert t[k2][j] == r[k2][j];
        MemberAt(t, k2, j);
      }
    }
  }

  lemma UniqueRemoveAt<T>(t: Table<T>, k: string, pos: nat)
    requires Unique(t) && k in t && pos < |t[k]|
    ensures Unique(RemoveAt(t, k, pos))
  {
    var r := RemoveAt(t, k, pos);
    forall k1, i, k2, j |
      k1 in r && k2 in r && 0 <= i < |r[k1]| && 0 <= j < |r[k2]| && r[k1][i] == r[k2][j]
      ensures k1 == k2 && i == j
    {
      var i' := if k1 == k && i >= pos then i + 1 else i;
      var j' := if k2 == k && j >= pos then j + 1 else j;
      assert t[k1][i'] == r[k1][i];
      assert t[k2][j'] == r[k2][j];
    }
  }

  // ---------------------------------------------------------------------------
  // Each transition keeps the invariant
  // ---------------------------------------------------------------------------

  /** Reusing the oldest idle connection keeps the invariant and the set of
      tracked connections. */
  lemma ReusePreserves<T>(st: State<T>, c: string)
    requires WellFormed(st) && c in st.available
    ensures WellFormed(Reuse(st, c))
    ensures Members(Reuse(st, c).available) + Members(Reuse(st, c).used)
         == Members(st.available) + Members(st.used)
  {
    var x := st.available[c][0];
    MembersRemoveAt(st.available, c, 0);
    MembersAppend(st.used, c, x);
    UniqueRemoveAt(st.available, c, 0);
    MemberAt(st.available, c, 0);
    UniqueAppend(st.used, c, x);
  }

  /** Tracking a connection that is in neither table keeps the invariant and
      adds exactly that connection. */
  lemma TrackPreserves<T>(st: State<T>, c: string, x: T)
    requires WellFormed(st) && x !in Members(st.available) && x !in Members(st.used)
    ensures WellFormed(Track(st, c, x))
    ensures Members(Track(st, c, x).available) + Members(Track(st, c, x).used)
         == Members(st.available) + Members(st.used) + {x}
  {
    MembersAppend(st.used, c, x);
    UniqueAppend(st.used, c, x);
  }

  /** Close of any connection whose key is in `used` keeps the invariant and
      the set of tracked connections. */
  lemma ReturnPreserves<T>(st: State<T>, c: string, d: T)
    requires WellFormed(st) && c in st.used
    ensures WellFormed(Return(st, c, d))
    ensures Members(Return(st, c, d).available) + Members(Return(st, c, d).used)
         == Members(st.available) + Members(st.used)
  {
    var pos := LastIndex(st.used[c], d);
    var x := st.used[c][pos];
    MembersRemoveAt(st.used, c, pos);
    MembersAppend(st.available, c, x);
    UniqueRemoveAt(st.used, c, pos);
    MemberAt(st.used, c, pos);
    UniqueAppend(st.available, c, x);
  }

  /** Timeout with its key in `available` keeps the invariant and removes
      exactly the connection it closes. */
  lemma EvictPreserves<T>(st: State<T>, c: string, d: T)
    requires WellFormed(st) && c in st.available
    ensures WellFormed(State(Evict(st.available, c, d), st.used))
    ensures Members(Evict(st.available, c, d)) == Members(st.available) - {Evicted(st.available, c, d)}
    ensures Evicted(st.available, c, d) in Members(st.available)
  {
    var pos := LastIndex(st.available[c], d);
    MembersRemoveAt(st.available, c, pos);
    UniqueRemoveAt(st.available, c, pos);
    MemberAt(st.available, c, pos);
  }

  // ---------------------------------------------------------------------------
  // On tracked connections the positional removal is removal by identity
  // ---------------------------------------------------------------------------

  /** Close of a connection present in `used[c]` takes out exactly that
      connection, keeps the order of the others, deletes the key when it was
      the only one, and appends it to `available[c]`. */
  lemma ReturnTracked<T>(st: State<T>, c: string, d: T)
    requires WellFormed(st) && c in st.used && d in st.used[c]
    ensures Return(st, c, d) == State(Append(st.available, c, d), Drop(st.used, c, d))
  {
    var s := st.used[c];
    var pos := LastIndex(s, d);
    OnlyOnce(st.used, c, pos);
    RemoveAtIsWithout(s, pos);
    if |s| == 1 {
      assert s[..pos] + s[pos + 1..] == [];
    }
  }

  /** Close of a connection absent from `used[c]` moves the front entry of
      `used[c]` instead, and in every case no other key changes. */
  lemma ReturnUntracked<T>(st: State<T>, c: string, d: T)
    requires c in st.used && |st.used[c]| > 0
    ensures d !in st.used[c] ==>
              Return(st, c, d) == State(Append(st.available, c, st.used[c][0]), RemoveAt(st.used, c, 0))
    ensures forall k :: k != c ==>
              Get(Return(st, c, d).available, k) == Get(st.available, k) &&
              Get(Return(st, c, d).used, k) == Get(st.used, k)
  {
  }

  /** Whichever entry the scan picks, Close takes exactly that one entry out
      of `used[c]` and keeps all the others. */
  lemma ReturnMovesOne<T>(st: State<T>, c: string, d: T)
    requires c in st.used && |st.used[c]| > 0
    ensures multiset(Get(Return(st, c, d).used, c)) + multiset{if d in st.used[c] then d else st.used[c][0]}
              == multiset(st.used[c])
  {
    var s := st.used[c];
    var pos := LastIndex(s, d);
    assert s == s[..pos] + [s[pos]] + s[pos + 1..];
  }

  /** Whichever entry the scan picks, Timeout takes exactly that one entry out
      of `available[c]` and keeps all the others. */
  lemma EvictRemovesOne<T>(available: Table<T>, c: string, d: T)
    requires c in available && |available[c]| > 0
    ensures multiset(Get(Evict(available, c, d), c)) + multiset{Evicted(available, c, d)}
              == multiset(available[c])
  {
    var s := available[c];
    var pos := LastIndex(s, d);
    assert s == s[..pos] + [s[pos]] + s[pos + 1..];
  }

  /** Timeout of a connection present in `available[c]` closes exactly that
      connection and takes out exactly it, keeping the order of the others. */
  lemma EvictTracked<T>(st: State<T>, c: string, d: T)
    requires WellFormed(st) && c in st.available && d in st.available[c]
    ensures Evicted(st.available, c, d) == d
    ensures Evict(st.available, c, d) == Drop(st.available, c, d)
  {
    var s := st.available[c];
    var pos := LastIndex(s, d);
    OnlyOnce(st.available, c, pos);
    RemoveAtIsWithout(s, pos);
    if |s| == 1 {
      assert s[..pos] + s[pos + 1..] == [];
    }
  }
}
