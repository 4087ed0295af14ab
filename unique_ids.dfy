/** `unique_ids_count`: how many distinct ids a sensor list holds. */
module UniqueIds {
  import opened Text
  import opened Seqs
  import opened Sorting
  import opened Sensors

  /** The strings occurring in a sequence. */
  function Elems(s: seq<string>): set<string> {
    set x | x in s
  }

  lemma ElemsSnoc(s: seq<string>, x: string)
    ensures Elems(s + [x]) == Elems(s) + {x}
  {
  }

  /** The ids occurring in a sensor list. */
  function IdSet(sensors: seq<Sensor>): set<string> {
    set s | s in sensors :: s.id
  }

  /** No two sensors share an id. */
  predicate DistinctIds(sensors: seq<Sensor>) {
    forall i, j :: 0 <= i < j < |sensors| ==> sensors[i].id != sensors[j].id
  }

  /** A list whose head id reappears in its tail does not have distinct ids. */
  lemma HeadIdRepeated(sensors: seq<Sensor>)
    requires sensors != [] && sensors[0].id in IdSet(sensors[1..])
    ensures !DistinctIds(sensors)
  {
    var rest := sensors[1..];
    var s :| s in rest && s.id == sensors[0].id;
    var j :| 0 <= j < |rest| && rest[j] == s;
    assert sensors[j + 1].id == sensors[0].id;
  }

  /** A head id that is new, in front of a tail with distinct ids, keeps the ids distinct. */
  lemma DistinctIdsCons(sensors: seq<Sensor>)
    requires sensors != [] && sensors[0].id !in IdSet(sensors[1..]) && DistinctIds(sensors[1..])
    ensures DistinctIds(sensors)
  {
    var rest := sensors[1..];
    forall i, j | 0 <= i < j < |sensors| ensures sensors[i].id != sensors[j].id {
      if i == 0 {
        assert sensors[j] in rest;
      } else {
        assert rest[i - 1] == sensors[i] && rest[j - 1] == sensors[j];
      }
    }
  }

  /**
   * There are never more distinct ids than sensors, and exactly as many
   * when no id is repeated.
   */
  lemma {:induction false} IdSetSize(sensors: seq<Sensor>)
    ensures |IdSet(sensors)| <= |sensors|
    ensures |IdSet(sensors)| == |sensors| <==> DistinctIds(sensors)
  {
    if sensors != [] {
      var rest := sensors[1..];
      IdSetSize(rest);
      assert IdSet(sensors) == {sensors[0].id} + IdSet(rest) by {
        assert sensors == [sensors[0]] + rest;
      }
      if sensors[0].id in IdSet(rest) {
        HeadIdRepeated(sensors);
      } else if DistinctIds(rest) {
        DistinctIdsCons(sensors);
      } else {
        var i, j :| 0 <= i < j < |rest| && rest[i].id == rest[j].id;
        assert sensors[i + 1].id == sensors[j + 1].id;
      }
    }
  }

  /** No string occurs twice. */
  predicate Distinct(s: seq<string>) {
    forall i, j :: 0 <= i < j < |s| ==> s[i] != s[j]
  }

  /** A sequence without repeated strings has as many elements as its set. */
  lemma {:induction false} DistinctElems(s: seq<string>)
    requires Distinct(s)
    ensures |Elems(s)| == |s|
  {
    if s != [] {
      var rest := s[1..];
      assert Elems(s) == {s[0]} + Elems(rest) by {
        assert s == [s[0]] + rest;
      }
      assert s[0] !in Elems(rest) by {
        forall j | 0 <= j < |rest| ensures rest[j] != s[0] {
          assert rest[j] == s[j + 1];
        }
      }
      forall i, j | 0 <= i < j < |rest| ensures rest[i] != rest[j] {
        assert rest[i] == s[i + 1] && rest[j] == s[j + 1];
      }
      DistinctElems(rest);
    }
  }

  /**
   * The dedup step that keeps a value: appending a value above the last
   * kept one, and different from it, keeps the kept values distinct and
   * sorted.
   */
  lemma KeepLarger(kept: seq<string>, x: string)
    requires kept != [] && Distinct(kept) && Sorted(kept, Ident)
    requires StrLe(kept[|kept| - 1], x) && x != kept[|kept| - 1]
    ensures Distinct(kept + [x]) && Sorted(kept + [x], Ident)
  {
    var n := |kept| - 1;
    var last := kept[n];
    forall i | 0 <= i < |kept| ensures kept[i] != x && StrLe(kept[i], x) {
      if i < n {
        assert StrLe(Ident(kept[i]), Ident(kept[n]));
      } else {
        StrLeReflexive(last);
      }
      StrLeTransitive(kept[i], last, x);
      if kept[i] == x {
        StrLeAntisymmetric(last, x);
      }
    }
    var r := kept + [x];
    forall i, j | 0 <= i < j < |r| ensures StrLe(Ident(r[i]), Ident(r[j])) {
      if j < |kept| {
        assert r[i] == kept[i] && r[j] == kept[j];
      } else {
        assert r[i] == kept[i] && r[j] == x;
      }
    }
  }

  /** The ids of the sensors, in order: what `sort` is applied to. */
  function SortedIds(sensors: seq<Sensor>): (ids: seq<string>)
    ensures Sorted(ids, Ident)
    ensures multiset(ids) == multiset(MapSeq(sensors, SensorId))
    ensures Elems(ids) == IdSet(sensors)
  {
    var all := MapSeq(sensors, SensorId);
    var ids := SortBy(all, Ident);
    assert Elems(ids) == IdSet(sensors) by {
      forall x ensures x in ids <==> x in IdSet(sensors) {
        calc {
          x in ids;
          x in multiset(ids);
          x in multiset(all);
          x in all;
        }
        if x in all {
          var i :| 0 <= i < |all| && all[i] == x;
          assert sensors[i] in sensors;
        }
        if x in IdSet(sensors) {
          var s :| s in sensors && s.id == x;
          var i :| 0 <= i < |sensors| && sensors[i] == s;
          assert all[i] == x;
        }
      }
    }
    ids
  }

  /**
   * `Vec::dedup` on a sorted vector: removes consecutive duplicates in place,
   * keeping the first of every run, and returns the new length. What is kept
   * is exactly the set of values the vector held, each once, still sorted.
   */
  method Dedup(a: array<string>) returns (len: nat)
    requires Sorted(a[..], Ident)
    modifies a
    ensures len <= a.Length
    ensures Elems(a[..len]) == Elems(old(a[..]))
    ensures Distinct(a[..len])
    ensures Sorted(a[..len], Ident)
  {
    if a.Length == 0 {
      return 0;
    }
    ghost var ids := a[..];
    var w := 1;
    for r := 1 to a.Length
      invariant 1 <= w <= r
      invariant a[r..] == ids[r..]
      invariant a[w - 1] == ids[r - 1]
      invariant Elems(a[..w]) == Elems(ids[..r])
      invariant Distinct(a[..w])
      invariant Sorted(a[..w], Ident)
    {
      ghost var kept := a[..w];
      var x := a[r];
      assert x == ids[r] && kept[w - 1] == a[w - 1];
      assert ids[..r + 1] == ids[..r] + [x];
      ElemsSnoc(ids[..r], x);
      if x != a[w - 1] {
        assert StrLe(Ident(ids[r - 1]), Ident(ids[r]));
        KeepLarger(kept, x);
        a[w] := x;
        assert a[..w + 1] == kept + [x];
        ElemsSnoc(kept, x);
        w := w + 1;
      } else {
        assert x in Elems(kept);
      }
    }
    assert ids[..a.Length] == ids;
    len := w;
  }

  /**
   * `unique_ids_count`: collects the ids, sorts them, removes consecutive
   * duplicates and returns the length left, which is the number of
   * distinct ids.
   */
  method UniqueIdsCount(sensors: seq<Sensor>) returns (count: nat)
    ensures count == |IdSet(sensors)|
  {
    var ids := SortedIds(sensors);
    var buf := new string[|ids|](i requires 0 <= i < |ids| => ids[i]);
    assert buf[..] == ids;
    var len := Dedup(buf);
    DistinctElems(buf[..len]);
    count := len;
  }
}
