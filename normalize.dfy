/**
 * `clean_raw_sensors`: the canonical form of a sensor list. Every text field
 * is trimmed, every tag list is trimmed element by element and sorted (but
 * not deduplicated), and the list is sorted by id with a stable sort.
 */
module Normalize {
  import opened Wrappers
  import opened Text
  import opened Seqs
  import opened Sorting
  import opened Sensors

  /** A tag list after cleaning: every tag trimmed, then the list sorted. */
  function CleanTags(tags: seq<string>): (r: seq<string>)
    ensures |r| == |tags|
    ensures Sorted(r, Ident)
    ensures multiset(r) == multiset(MapSeq(tags, Trim))
    ensures forall t :: t in r ==> IsTrimmed(t)
  {
    var trimmed := MapSeq(tags, Trim);
    var r := SortBy(trimmed, Ident);
    assert forall t :: t in r ==> t in multiset(trimmed);
    r
  }

  /** `Option::map` with `trim`: a unit stays present or absent, and a present one is trimmed. */
  function CleanUnit(unit: Option<string>): (r: Option<string>)
    ensures r.Some? <==> unit.Some?
    ensures r.Some? ==> IsTrimmed(r.value) && r.value == Trim(unit.value)
  {
    match unit
    case None => None
    case Some(u) => Some(Trim(u))
  }

  /** A sensor in canonical form: trimmed text, trimmed and sorted tags. */
  predicate IsClean(s: Sensor) {
    && IsTrimmed(s.id)
    && IsTrimmed(s.displayName)
    && (s.unit.Some? ==> IsTrimmed(s.unit.value))
    && Sorted(s.skysparkMarkerTags, Ident)
    && forall t :: t in s.skysparkMarkerTags ==> IsTrimmed(t)
  }

  /**
   * One sensor after cleaning: in canonical form; id, display name and unit
   * are the raw ones trimmed; the tags are the raw tags trimmed, as many as
   * before, in sorted order; the type is unchanged.
   */
  function CleanSensor(raw: Sensor): (s: Sensor)
    ensures IsClean(s)
    ensures s.id == Trim(raw.id) && s.displayName == Trim(raw.displayName)
    ensures s.sensorType == raw.sensorType
    ensures s.unit.Some? <==> raw.unit.Some?
    ensures raw.unit.Some? ==> s.unit.value == Trim(raw.unit.value)
    ensures |s.skysparkMarkerTags| == |raw.skysparkMarkerTags|
    ensures multiset(s.skysparkMarkerTags) == multiset(MapSeq(raw.skysparkMarkerTags, Trim))
  {
    Sensor(
      Trim(raw.id),
      Trim(raw.displayName),
      CleanTags(raw.skysparkMarkerTags),
      raw.sensorType,
      CleanUnit(raw.unit))
  }

  /** A sensor already in canonical form is left as it is. */
  lemma CleanSensorKeepsClean(s: Sensor)
    requires IsClean(s)
    ensures CleanSensor(s) == s
  {
    TrimFixedIff(s.id);
    TrimFixedIff(s.displayName);
    if s.unit.Some? {
      TrimFixedIff(s.unit.value);
    }
    var tags := s.skysparkMarkerTags;
    forall i | 0 <= i < |tags| ensures Trim(tags[i]) == tags[i] {
      assert tags[i] in tags;
      TrimFixedIff(tags[i]);
    }
    assert MapSeq(tags, Trim) == tags;
    SortBySortedIsIdentity(tags, Ident);
  }

  /** Cleaning a sensor twice is cleaning it once. */
  lemma CleanSensorIdempotent(raw: Sensor)
    ensures CleanSensor(CleanSensor(raw)) == CleanSensor(raw)
  {
    CleanSensorKeepsClean(CleanSensor(raw));
  }

  /** Cleaning the tags does not depend on their input order. */
  lemma CleanTagsOrderIndependent(a: seq<string>, b: seq<string>)
    requires multiset(a) == multiset(b)
    ensures CleanTags(a) == CleanTags(b)
  {
    MapSeqPermutation(a, b, Trim);
    SortByOrderIndependent(MapSeq(a, Trim), MapSeq(b, Trim), Ident);
  }

  /**
   * `clean_raw_sensors`: the cleaned sensors, sorted by id. The result has
   * as many sensors as the input and every one of them is in canonical form.
   */
  function CleanRawSensors(rawSensors: seq<Sensor>): (sensors: seq<Sensor>)
    ensures |sensors| == |rawSensors|
    ensures Sorted(sensors, SensorId)
    ensures multiset(sensors) == multiset(MapSeq(rawSensors, CleanSensor))
    ensures forall s :: s in sensors ==> IsClean(s)
  {
    var cleaned := MapSeq(rawSensors, CleanSensor);
    var sensors := SortBy(cleaned, SensorId);
    assert forall s :: s in sensors ==> s in multiset(cleaned);
    sensors
  }

  /** Normalising a normalised list changes nothing. */
  lemma CleanRawSensorsIdempotent(rawSensors: seq<Sensor>)
    ensures CleanRawSensors(CleanRawSensors(rawSensors)) == CleanRawSensors(rawSensors)
  {
    var sensors := CleanRawSensors(rawSensors);
    forall i | 0 <= i < |sensors| ensures CleanSensor(sensors[i]) == sensors[i] {
      assert sensors[i] in sensors;
      CleanSensorKeepsClean(sensors[i]);
    }
    assert MapSeq(sensors, CleanSensor) == sensors;
    SortBySortedIsIdentity(sensors, SensorId);
  }

  /** Sensors that share an id keep their input order (`sort_by` is stable). */
  lemma CleanRawSensorsStable(rawSensors: seq<Sensor>, id: string)
    ensures WithKey(CleanRawSensors(rawSensors), SensorId, id)
            == WithKey(MapSeq(rawSensors, CleanSensor), SensorId, id)
  {
    SortByStable(MapSeq(rawSensors, CleanSensor), SensorId, id);
  }

  /**
   * When no two sensors share a trimmed id, the normalised list does not
   * depend on the input order.
   */
  lemma CleanRawSensorsOrderIndependent(a: seq<Sensor>, b: seq<Sensor>)
    requires multiset(a) == multiset(b)
    requires forall i, j :: 0 <= i < j < |a| ==> Trim(a[i].id) != Trim(a[j].id)
    ensures CleanRawSensors(a) == CleanRawSensors(b)
  {
    var ca, cb := MapSeq(a, CleanSensor), MapSeq(b, CleanSensor);
    MapSeqPermutation(a, b, CleanSensor);
    CleanedIdsDistinct(a);
    SortByOrderIndependent(ca, cb, SensorId);
  }

  /** Distinct trimmed ids make the id determine the cleaned sensor. */
  lemma CleanedIdsDistinct(a: seq<Sensor>)
    requires forall i, j :: 0 <= i < j < |a| ==> Trim(a[i].id) != Trim(a[j].id)
    ensures KeyInjective(MapSeq(a, CleanSensor), SensorId)
  {
    var ca := MapSeq(a, CleanSensor);
    forall i, j | 0 <= i < |ca| && 0 <= j < |ca| && SensorId(ca[i]) == SensorId(ca[j])
      ensures ca[i] == ca[j]
    {
      SameCleanIdSameSensor(a, i, j);
    }
  }

  lemma SameCleanIdSameSensor(a: seq<Sensor>, i: nat, j: nat)
    requires forall i, j :: 0 <= i < j < |a| ==> Trim(a[i].id) != Trim(a[j].id)
    requires i < |a| && j < |a|
    requires CleanSensor(a[i]).id == CleanSensor(a[j]).id
    ensures i == j
  {
  }
}
