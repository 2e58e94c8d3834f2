/** An ordered map with `String` keys, as Rust's `BTreeMap<String, V>` behaves:
    at most one entry per key, entries visited in ascending key order. It is
    modelled by its iteration order, a list of (key, value) pairs whose keys
    strictly ascend, together with the plain `map` it denotes. */
module OrderedMap {
  import opened Text

  /** Keys strictly ascend from each entry to the next. */
  predicate Ascending<V>(es: seq<(string, V)>)
  {
    forall i :: 0 <= i < |es| - 1 ==> Less(es[i].0, es[i + 1].0)
  }

  /** The map a list of entries denotes. */
  function MapOf<V>(es: seq<(string, V)>): map<string, V>
  {
    if es == [] then map[] else MapOf(es[1..])[es[0].0 := es[0].1]
  }

  /** `insert(k, v)` on the entry list: the entry for `k` is replaced if
      present, otherwise a new one is placed before the first greater key. */
  function InsertEntry<V>(es: seq<(string, V)>, k: string, v: V): (r: seq<(string, V)>)
    requires Ascending(es)
    ensures Ascending(r)
    ensures MapOf(r) == MapOf(es)[k := v]
    ensures |r| == if k in MapOf(es) then |es| else |es| + 1
    ensures r[0].0 == k || (es != [] && r[0].0 == es[0].0)
  {
    if es == [] then [(k, v)]
    else if k == es[0].0 then [(k, v)] + es[1..]
    else if Less(k, es[0].0) then
      BelowAll(es, k);
      [(k, v)] + es
    else
      LessTotal(k, es[0].0);
      MapOfHead(es);
      var tail := InsertEntry(es[1..], k, v);
      assert Ascending([es[0]] + tail) by {
        forall i | 0 <= i < |tail| ensures Less(([es[0]] + tail)[i].0, ([es[0]] + tail)[i + 1].0) {
          if i > 0 { assert ([es[0]] + tail)[i] == tail[i - 1]; }
        }
      }
      [es[0]] + tail
  }

  /** In an ascending list the first key is smaller than every later one,
      so it is absent from the map of the tail. */
  lemma {:induction false} MapOfHead<V>(es: seq<(string, V)>)
    requires Ascending(es) && es != []
    ensures forall i :: 0 < i < |es| ==> Less(es[0].0, es[i].0)
    ensures es[0].0 !in MapOf(es[1..])
    decreases |es|
  {
    if |es| > 1 {
      MapOfHead(es[1..]);
      forall i | 1 < i < |es| ensures Less(es[0].0, es[i].0) {
        assert es[1..][i - 1] == es[i];
        LessTransitive(es[0].0, es[1].0, es[i].0);
      }
      KeysOfMapOf(es[1..]);
      if es[0].0 in MapOf(es[1..]) {
        var j :| 0 <= j < |es[1..]| && es[1..][j].0 == es[0].0;
        LessIrreflexive(es[0].0);
        assert false;
      }
    }
  }

  /** A key below the first key of an ascending list is not in its map. */
  lemma BelowAll<V>(es: seq<(string, V)>, k: string)
    requires Ascending(es) && es != [] && Less(k, es[0].0)
    ensures k !in MapOf(es)
  {
    MapOfHead(es);
    KeysOfMapOf(es);
    if k in MapOf(es) {
      var i :| 0 <= i < |es| && es[i].0 == k;
      if i > 0 { LessTransitive(k, es[0].0, k); }
      LessIrreflexive(k);
    }
  }

  /** The keys of the map are exactly the keys of the entries. */
  lemma {:induction false} KeysOfMapOf<V>(es: seq<(string, V)>)
    ensures forall k :: k in MapOf(es) <==> exists i :: 0 <= i < |es| && es[i].0 == k
    decreases |es|
  {
    if es != [] {
      KeysOfMapOf(es[1..]);
      forall k | k in MapOf(es) ensures exists i :: 0 <= i < |es| && es[i].0 == k {
        if k != es[0].0 {
          assert k in MapOf(es[1..]);
          var j :| 0 <= j < |es[1..]| && es[1..][j].0 == k;
          assert es[j + 1].0 == k;
        }
      }
      forall i | 0 <= i < |es| ensures es[i].0 in MapOf(es) {
        if i > 0 { assert es[1..][i - 1] == es[i]; }
      }
    }
  }

  /** Each entry of an ascending list is what the map holds for its key, and
      the map has one key per entry. */
  lemma {:induction false} MapOfEntries<V>(es: seq<(string, V)>)
    requires Ascending(es)
    ensures forall i :: 0 <= i < |es| ==> es[i].0 in MapOf(es) && MapOf(es)[es[i].0] == es[i].1
    ensures |MapOf(es)| == |es|
    decreases |es|
  {
    if es != [] {
      MapOfHead(es);
      MapOfEntries(es[1..]);
      forall i | 0 < i < |es| ensures es[i].0 in MapOf(es) && MapOf(es)[es[i].0] == es[i].1 {
        assert es[1..][i - 1] == es[i];
        LessIrreflexive(es[0].0);
      }
    }
  }

  /** Every key of the map of an ascending list is its first key or above it. */
  lemma HeadIsLeast<V>(es: seq<(string, V)>)
    requires Ascending(es) && es != []
    ensures forall k :: k in MapOf(es) ==> k == es[0].0 || Less(es[0].0, k)
  {
    MapOfHead(es);
    KeysOfMapOf(es);
  }

  /** Two ascending lists with the same map start with the same entry. */
  lemma SameHead<V>(a: seq<(string, V)>, b: seq<(string, V)>)
    requires Ascending(a) && Ascending(b) && a != [] && b != []
    requires MapOf(a) == MapOf(b)
    ensures a[0] == b[0]
  {
    MapOfEntries(a);
    MapOfEntries(b);
    HeadIsLeast(a);
    HeadIsLeast(b);
    var ka, kb := a[0].0, b[0].0;
    if ka != kb {
      assert Less(ka, kb) && Less(kb, ka);
      LessTransitive(ka, kb, ka);
      LessIrreflexive(ka);
    }
  }

  /** Dropping the first entry of an ascending list drops its key from the map. */
  lemma TailMap<V>(es: seq<(string, V)>)
    requires Ascending(es) && es != []
    ensures Ascending(es[1..])
    ensures MapOf(es[1..]) == MapOf(es) - {es[0].0}
  {
    MapOfHead(es);
  }

  /** An ascending list is determined by the map it denotes: the iteration
      order of a `BTreeMap` depends on its contents only. */
  lemma {:induction false} Canonical<V>(a: seq<(string, V)>, b: seq<(string, V)>)
    requires Ascending(a) && Ascending(b)
    requires MapOf(a) == MapOf(b)
    ensures a == b
    decreases |a|
  {
    MapOfEntries(a);
    MapOfEntries(b);
    if a != [] {
      assert b != [];
      SameHead(a, b);
      TailMap(a);
      TailMap(b);
      Canonical(a[1..], b[1..]);
      assert a == [a[0]] + a[1..] && b == [b[0]] + b[1..];
    }
  }

  /** The strictly ascending keys `ks`, each paired with its value in `m`. */
  function Listing<V>(ks: seq<string>, m: map<string, V>): (es: seq<(string, V)>)
    requires forall k :: k in ks ==> k in m
    ensures |es| == |ks|
    ensures forall i :: 0 <= i < |ks| ==> es[i] == (ks[i], m[ks[i]])
  {
    seq(|ks|, i requires 0 <= i < |ks| => (ks[i], m[ks[i]]))
  }

  /** Listing the keys of `m` in ascending order gives entries denoting `m`. */
  lemma ListingMap<V>(ks: seq<string>, m: map<string, V>)
    requires forall i :: 0 <= i < |ks| - 1 ==> Less(ks[i], ks[i + 1])
    requires forall k :: k in m <==> k in ks
    ensures Ascending(Listing(ks, m))
    ensures MapOf(Listing(ks, m)) == m
  {
    var es := Listing(ks, m);
    assert Ascending(es);
    KeysOfMapOf(es);
    MapOfEntries(es);
    forall k | k in m ensures k in MapOf(es) && MapOf(es)[k] == m[k] {
      var i :| 0 <= i < |ks| && ks[i] == k;
      assert es[i] == (k, m[k]);
    }
    forall k | k in MapOf(es) ensures k in m {
      var i :| 0 <= i < |es| && es[i].0 == k;
      assert k == ks[i];
    }
  }

  /** The keys of an ascending list are the unique ascending listing of the
      keys of its map. */
  lemma KeysInOrder<V>(es: seq<(string, V)>, ks: seq<string>)
    requires Ascending(es)
    requires forall i :: 0 <= i < |ks| - 1 ==> Less(ks[i], ks[i + 1])
    requires forall k :: k in MapOf(es) <==> k in ks
    ensures |es| == |ks|
    ensures forall i :: 0 <= i < |ks| ==> es[i].0 == ks[i]
  {
    ListingMap(ks, MapOf(es));
    Canonical(Listing(ks, MapOf(es)), es);
  }

  /** A `BTreeMap<String, V>`. */
  datatype OMap<V> = OMap(entries: seq<(string, V)>) {

    /** The representation invariant: keys strictly ascend. */
    predicate Valid()
    {
      Ascending(entries)
    }

    /** The map this ordered map denotes. */
    function ToMap(): map<string, V>
    {
      MapOf(entries)
    }

    /** `keys()`, in ascending order. */
    function Keys(): (ks: seq<string>)
      ensures |ks| == |entries|
      ensures forall i :: 0 <= i < |ks| ==> ks[i] == entries[i].0
    {
      seq(|entries|, i requires 0 <= i < |entries| => entries[i].0)
    }

    /** `insert(k, v)`. */
    function Insert(k: string, v: V): (r: OMap<V>)
      requires Valid()
      ensures r.Valid()
      ensures r.ToMap() == ToMap()[k := v]
      ensures |r.entries| == if k in ToMap() then |entries| else |entries| + 1
    {
      OMap(InsertEntry(entries, k, v))
    }
  }

  /** `BTreeMap::new()`. */
  function Empty<V>(): (m: OMap<V>)
    ensures m.Valid() && m.ToMap() == map[]
  {
    OMap([])
  }

  /** `collect()` of (key, value) pairs into a `BTreeMap`: one insert per
      pair, in order, so a later pair overwrites an earlier one. */
  function FromPairs<V>(ps: seq<(string, V)>): (m: OMap<V>)
    ensures m.Valid()
  {
    if ps == [] then Empty()
    else FromPairs(ps[..|ps| - 1]).Insert(ps[|ps| - 1].0, ps[|ps| - 1].1)
  }

  /** The keys are exactly the keys of the pairs. */
  lemma {:induction false} FromPairsKeys<V>(ps: seq<(string, V)>)
    ensures forall k :: k in FromPairs(ps).ToMap() <==> exists i :: 0 <= i < |ps| && ps[i].0 == k
  {
    if ps != [] {
      var init := ps[..|ps| - 1];
      FromPairsKeys(init);
      forall k | k in FromPairs(ps).ToMap() ensures exists i :: 0 <= i < |ps| && ps[i].0 == k {
        if k != ps[|ps| - 1].0 {
          assert k in FromPairs(init).ToMap();
          var i :| 0 <= i < |init| && init[i].0 == k;
          assert ps[i] == init[i];
        }
      }
      forall i | 0 <= i < |ps| ensures ps[i].0 in FromPairs(ps).ToMap() {
        if i < |init| { assert ps[i] == init[i]; }
      }
    }
  }

  /** Every entry of the map is one of the pairs. */
  lemma {:induction false} FromPairsValues<V>(ps: seq<(string, V)>)
    ensures forall k :: k in FromPairs(ps).ToMap() ==>
      exists i :: 0 <= i < |ps| && ps[i] == (k, FromPairs(ps).ToMap()[k])
  {
    if ps != [] {
      var init := ps[..|ps| - 1];
      FromPairsValues(init);
      forall k | k in FromPairs(ps).ToMap()
        ensures exists i :: 0 <= i < |ps| && ps[i] == (k, FromPairs(ps).ToMap()[k])
      {
        if k != ps[|ps| - 1].0 {
          assert k in FromPairs(init).ToMap();
          var i :| 0 <= i < |init| && init[i] == (k, FromPairs(init).ToMap()[k]);
          assert ps[i] == init[i];
        } else {
          assert ps[|ps| - 1] == (k, FromPairs(ps).ToMap()[k]);
        }
      }
    }
  }

  /** Last wins: a pair whose key no later pair repeats is the one kept. */
  lemma {:induction false} FromPairsLastWins<V>(ps: seq<(string, V)>, i: nat)
    requires i < |ps|
    requires forall j :: i < j < |ps| ==> ps[j].0 != ps[i].0
    ensures ps[i].0 in FromPairs(ps).ToMap()
    ensures FromPairs(ps).ToMap()[ps[i].0] == ps[i].1
  {
    var init := ps[..|ps| - 1];
    if i < |init| {
      forall j | i < j < |init| ensures init[j].0 != init[i].0 {
        assert init[j] == ps[j];
      }
      assert init[i] == ps[i];
      FromPairsLastWins(init, i);
      assert ps[|ps| - 1].0 != ps[i].0;
    }
  }

  /** At most one entry per pair, and exactly one when the keys are distinct. */
  lemma {:induction false} FromPairsSize<V>(ps: seq<(string, V)>)
    ensures |FromPairs(ps).entries| <= |ps|
    ensures (forall i, j :: 0 <= i < j < |ps| ==> ps[i].0 != ps[j].0) ==>
      |FromPairs(ps).entries| == |ps|
  {
    if ps != [] {
      var init := ps[..|ps| - 1];
      FromPairsSize(init);
      if forall i, j :: 0 <= i < j < |ps| ==> ps[i].0 != ps[j].0 {
        forall i, j | 0 <= i < j < |init| ensures init[i].0 != init[j].0 {
          assert init[i] == ps[i] && init[j] == ps[j];
        }
        FromPairsKeys(init);
        assert ps[|ps| - 1].0 !in FromPairs(init).ToMap() by {
          forall i | 0 <= i < |init| ensures init[i].0 != ps[|ps| - 1].0 {
            assert init[i] == ps[i];
          }
        }
      }
    }
  }
}
