/**
 * The validation pass over a normalised sensor list: per-sensor rules, then
 * one aggregate rule on id uniqueness. Each problem is reported as a
 * `Finding`, in the order the pass discovers them; `Message` gives the line
 * printed for it.
 */
module Validate {
  import opened Wrappers
  import opened Tags
  import opened Sensors
  import opened UniqueIds

  datatype Finding =
    | EmptyId
    | EmptyDisplayName(id: string)
    | NoMarkerTags(id: string)
    | InvalidMarkerTag(id: string, tag: string)
    | InvalidUnit(id: string)
    | UnitButNotNumeric(id: string)
    | IdsNotUnique

  /**
   * The line printed for a finding. The empty-id line and the aggregate line
   * are told apart from every other line: the others all begin with
   * `Sensor id=` (see `MessageNamesSensor`).
   */
  function Message(f: Finding): (r: string)
    ensures r == "A sensor has an empty id" <==> f.EmptyId?
    ensures r == "Some sensor ids are not unique" <==> f.IdsNotUnique?
  {
    match f
    case EmptyId => "A sensor has an empty id"
    case EmptyDisplayName(id) => SensorLine(id, " has an empty display name")
    case NoMarkerTags(id) => SensorLine(id, " has no SkySpark marker tags")
    case InvalidMarkerTag(id, tag) => SensorLine(id, " has an invalid SkySpark marker tag '" + tag + "'")
    case InvalidUnit(id) => SensorLine(id, " has an invalid unit")
    case UnitButNotNumeric(id) => SensorLine(id, " has a unit but is not numeric")
    case IdsNotUnique => "Some sensor ids are not unique"
  }

  /**
   * A line about one sensor: `Sensor id=` and the id, then what is wrong.
   * Its first two characters, "Se", set it apart from the two id-less lines.
   */
  function SensorLine(id: string, detail: string): (r: string)
    ensures |r| == 10 + |id| + |detail|
    ensures r[..10 + |id|] == "Sensor id=" + id && r[10 + |id|..] == detail
    ensures r[0] == 'S' && r[1] == 'e'
  {
    var r := "Sensor id=" + id + detail;
    assert r[..10 + |id|] == "Sensor id=" + id;
    r
  }

  /** Findings that concern one sensor carry that sensor's id. */
  predicate NamesSensor(f: Finding) {
    !f.EmptyId? && !f.IdsNotUnique?
  }

  /** Every message about a named sensor begins with `Sensor id=` and the id. */
  lemma MessageNamesSensor(f: Finding)
    requires NamesSensor(f)
    ensures var prefix := "Sensor id=" + f.id;
            |prefix| <= |Message(f)| && Message(f)[..|prefix|] == prefix
  {
  }

  /** The invalid-tag line ends with the offending tag in single quotes. */
  lemma InvalidTagMessageQuotesTag(id: string, tag: string)
    ensures var m := Message(InvalidMarkerTag(id, tag));
            var quoted := "'" + tag + "'";
            |quoted| <= |m| && m[|m| - |quoted|..] == quoted
  {
    var detail := " has an invalid SkySpark marker tag '" + tag + "'";
    var m := SensorLine(id, detail);
    assert detail[|detail| - |tag| - 2..] == "'" + tag + "'";
    assert m[|m| - |tag| - 2..] == m[10 + |id|..][|detail| - |tag| - 2..];
  }

  /** One finding per tag that is not a legal tag name, in tag order. */
  function TagFindings(id: string, tags: seq<string>): seq<Finding> {
    if tags == [] then
      []
    else
      var last := tags[|tags| - 1];
      TagFindings(id, tags[..|tags| - 1])
        + (if ValidTagName(last) then [] else [InvalidMarkerTag(id, last)])
  }

  /**
   * The unit rule: a numeric sensor may omit its unit but a unit it has must
   * be in the catalogue; any other sensor must not have a unit.
   */
  function UnitFindings(s: Sensor, units: set<string>): seq<Finding> {
    if s.sensorType == Numeric then
      (if s.unit.Some? && s.unit.value !in units then [InvalidUnit(s.id)] else [])
    else
      (if s.unit.Some? then [UnitButNotNumeric(s.id)] else [])
  }

  /** Everything the pass reports about one sensor, in the order it checks. */
  function SensorFindings(s: Sensor, units: set<string>): seq<Finding> {
    (if s.id == [] then [EmptyId] else [])
      + (if s.displayName == [] then [EmptyDisplayName(s.id)] else [])
      + (if s.skysparkMarkerTags == [] then [NoMarkerTags(s.id)] else [])
      + TagFindings(s.id, s.skysparkMarkerTags)
      + UnitFindings(s, units)
  }

  /** The per-sensor findings of a list, sensor after sensor. */
  function AllSensorFindings(sensors: seq<Sensor>, units: set<string>): seq<Finding> {
    if sensors == [] then
      []
    else
      AllSensorFindings(sensors[..|sensors| - 1], units)
        + SensorFindings(sensors[|sensors| - 1], units)
  }

  /** The findings of the whole pass: the per-sensor ones, then the uniqueness one. */
  function Findings(sensors: seq<Sensor>, units: set<string>): seq<Finding> {
    AllSensorFindings(sensors, units)
      + (if |sensors| != |IdSet(sensors)| then [IdsNotUnique] else [])
  }

  /** The tag loop of the pass: one finding per tag that is not a valid tag name, in tag order. */
  method ValidateTags(id: string, tags: seq<string>) returns (findings: seq<Finding>)
    ensures findings == TagFindings(id, tags)
  {
    findings := [];
    for j := 0 to |tags|
      invariant findings == TagFindings(id, tags[..j])
    {
      var ok := IsTagName(tags[j]);
      if !ok {
        findings := findings + [InvalidMarkerTag(id, tags[j])];
      }
      assert tags[..j + 1][..j] == tags[..j];
    }
    assert tags[..|tags|] == tags;
  }

  /** The checks of one sensor, in the order the loop body makes them. */
  method ValidateSensor(sensor: Sensor, units: set<string>) returns (findings: seq<Finding>)
    ensures findings == SensorFindings(sensor, units)
  {
    var id := sensor.id;
    var tags := sensor.skysparkMarkerTags;
    var unit := sensor.unit;
    findings := [];
    if |id| == 0 {
      findings := findings + [EmptyId];
    }
    ghost var f1 := findings;
    if |sensor.displayName| == 0 {
      findings := findings + [EmptyDisplayName(id)];
    }
    assert findings == f1 + (if sensor.displayName == [] then [EmptyDisplayName(id)] else []);
    ghost var f2 := findings;
    if |tags| == 0 {
      findings := findings + [NoMarkerTags(id)];
    }
    assert findings == f2 + (if tags == [] then [NoMarkerTags(id)] else []);
    var tagFindings := ValidateTags(id, tags);
    findings := findings + tagFindings;
    ghost var before := findings;
    if sensor.sensorType == Numeric {
      match unit {
        case Some(u) =>
          if u !in units {
            findings := findings + [InvalidUnit(id)];
          }
        case None =>
      }
    } else {
      if unit.Some? {
        findings := findings + [UnitButNotNumeric(id)];
      }
    }
    assert findings == before + UnitFindings(sensor, units);
  }

  /**
   * The validation loop: checks every sensor in list order, appending a
   * finding for each broken rule, then compares the number of distinct ids
   * with the number of sensors.
   */
  method ValidateSensors(sensors: seq<Sensor>, units: set<string>) returns (findings: seq<Finding>)
    ensures findings == Findings(sensors, units)
  {
    findings := [];
    for i := 0 to |sensors|
      invariant findings == AllSensorFindings(sensors[..i], units)
    {
      var found := ValidateSensor(sensors[i], units);
      findings := findings + found;
      assert sensors[..i + 1][..i] == sensors[..i];
    }
    assert sensors[..|sensors|] == sensors;
    var count := UniqueIdsCount(sensors);
    if |sensors| != count {
      findings := findings + [IdsNotUnique];
    }
  }

  /**
   * Every invalid tag is reported once per occurrence, and a valid one
   * never; nothing else is reported by the tag rule.
   */
  lemma {:induction false} TagFindingsCount(id: string, tags: seq<string>, t: string)
    ensures multiset(TagFindings(id, tags))[InvalidMarkerTag(id, t)]
            == if ValidTagName(t) then 0 else multiset(tags)[t]
    ensures forall f :: f in TagFindings(id, tags) ==> f.InvalidMarkerTag? && f.id == id
  {
    if tags != [] {
      var init, last := tags[..|tags| - 1], tags[|tags| - 1];
      assert tags == init + [last];
      TagFindingsCount(id, init, t);
    }
  }

  /** How often a finding occurs among one sensor's findings, rule by rule. */
  lemma SensorFindingsCount(s: Sensor, units: set<string>, f: Finding)
    ensures multiset(SensorFindings(s, units))[f]
            == (if s.id == [] && f == EmptyId then 1 else 0)
               + (if s.displayName == [] && f == EmptyDisplayName(s.id) then 1 else 0)
               + (if s.skysparkMarkerTags == [] && f == NoMarkerTags(s.id) then 1 else 0)
               + multiset(TagFindings(s.id, s.skysparkMarkerTags))[f]
               + multiset(UnitFindings(s, units))[f]
  {
  }

  /** The unit rule reports an unknown unit of a numeric sensor, once. */
  lemma InvalidUnitCount(s: Sensor, units: set<string>)
    ensures multiset(SensorFindings(s, units))[InvalidUnit(s.id)]
            == if s.sensorType == Numeric && s.unit.Some? && s.unit.value !in units then 1 else 0
  {
    SensorFindingsCount(s, units, InvalidUnit(s.id));
    TagFindingsCount(s.id, s.skysparkMarkerTags, []);
  }

  /**
   * The unit rule reports a unit on a sensor that is not numeric, once; a
   * numeric sensor without a unit is never reported by the unit rule.
   */
  lemma UnitButNotNumericCount(s: Sensor, units: set<string>)
    ensures multiset(SensorFindings(s, units))[UnitButNotNumeric(s.id)]
            == if s.sensorType != Numeric && s.unit.Some? then 1 else 0
    ensures s.sensorType == Numeric && s.unit.None? ==> UnitFindings(s, units) == []
  {
    SensorFindingsCount(s, units, UnitButNotNumeric(s.id));
    TagFindingsCount(s.id, s.skysparkMarkerTags, []);
  }

  /** Per sensor, each invalid tag occurrence is reported exactly once. */
  lemma InvalidTagCount(s: Sensor, units: set<string>, t: string)
    ensures multiset(SensorFindings(s, units))[InvalidMarkerTag(s.id, t)]
            == if ValidTagName(t) then 0 else multiset(s.skysparkMarkerTags)[t]
  {
    var f := InvalidMarkerTag(s.id, t);
    var tagCount := multiset(TagFindings(s.id, s.skysparkMarkerTags))[f];
    TagFindingsCount(s.id, s.skysparkMarkerTags, t);
    assert tagCount == if ValidTagName(t) then 0 else multiset(s.skysparkMarkerTags)[t];
    assert multiset(UnitFindings(s, units))[f] == 0;
    assert f != EmptyId && f != EmptyDisplayName(s.id) && f != NoMarkerTags(s.id);
    SensorFindingsCount(s, units, f);
  }

  /** A sensor without tags is reported once for that, and no tag finding follows. */
  lemma NoMarkerTagsCount(s: Sensor, units: set<string>)
    ensures multiset(SensorFindings(s, units))[NoMarkerTags(s.id)]
            == if s.skysparkMarkerTags == [] then 1 else 0
  {
    var f := NoMarkerTags(s.id);
    var tagFindings := TagFindings(s.id, s.skysparkMarkerTags);
    TagFindingsCount(s.id, s.skysparkMarkerTags, []);
    assert f !in tagFindings;
    assert multiset(tagFindings)[f] == 0;
    assert multiset(UnitFindings(s, units))[f] == 0;
    SensorFindingsCount(s, units, f);
  }

  /** The per-sensor findings of a concatenation are those of each part, in order. */
  lemma {:induction false} AllSensorFindingsAppend(a: seq<Sensor>, b: seq<Sensor>, units: set<string>)
    ensures AllSensorFindings(a + b, units) == AllSensorFindings(a, units) + AllSensorFindings(b, units)
  {
    if b != [] {
      var init := b[..|b| - 1];
      assert (a + b)[..|a + b| - 1] == a + init;
      AllSensorFindingsAppend(a, init, units);
    } else {
      assert a + b == a;
    }
  }

  /** The per-sensor rules never report the aggregate finding. */
  lemma {:induction false} NoAggregateInSensorFindings(sensors: seq<Sensor>, units: set<string>)
    ensures IdsNotUnique !in AllSensorFindings(sensors, units)
  {
    if sensors != [] {
      var s := sensors[|sensors| - 1];
      NoAggregateInSensorFindings(sensors[..|sensors| - 1], units);
      TagFindingsCount(s.id, s.skysparkMarkerTags, []);
    }
  }

  /** A sensor with an empty id is reported once for it. */
  lemma EmptyIdCount(s: Sensor, units: set<string>)
    ensures multiset(SensorFindings(s, units))[EmptyId] == if s.id == [] then 1 else 0
  {
    var tagFindings := TagFindings(s.id, s.skysparkMarkerTags);
    TagFindingsCount(s.id, s.skysparkMarkerTags, []);
    assert EmptyId !in tagFindings;
    assert multiset(tagFindings)[EmptyId] == 0;
    assert multiset(UnitFindings(s, units))[EmptyId] == 0;
    SensorFindingsCount(s, units, EmptyId);
  }

  /** A sensor with an empty display name is reported once for it. */
  lemma EmptyDisplayNameCount(s: Sensor, units: set<string>)
    ensures multiset(SensorFindings(s, units))[EmptyDisplayName(s.id)]
            == if s.displayName == [] then 1 else 0
  {
    var f := EmptyDisplayName(s.id);
    var tagFindings := TagFindings(s.id, s.skysparkMarkerTags);
    TagFindingsCount(s.id, s.skysparkMarkerTags, []);
    assert f !in tagFindings;
    assert multiset(tagFindings)[f] == 0;
    assert multiset(UnitFindings(s, units))[f] == 0;
    SensorFindingsCount(s, units, f);
  }

  lemma EmptyIdInSensor(s: Sensor, units: set<string>)
    ensures EmptyId in SensorFindings(s, units) <==> s.id == []
  {
    EmptyIdCount(s, units);
    assert EmptyId in SensorFindings(s, units) <==> EmptyId in multiset(SensorFindings(s, units));
  }

  /** Some sensor has an empty id. */
  predicate HasEmptyId(sensors: seq<Sensor>) {
    exists k :: 0 <= k < |sensors| && sensors[k].id == []
  }

  lemma HasEmptyIdSnoc(init: seq<Sensor>, s: Sensor)
    ensures HasEmptyId(init + [s]) <==> HasEmptyId(init) || s.id == []
  {
    var all := init + [s];
    if HasEmptyId(init) {
      var k :| 0 <= k < |init| && init[k].id == [];
      assert all[k] == init[k];
    }
    if s.id == [] {
      assert all[|init|] == s;
    }
    if HasEmptyId(all) {
      var k :| 0 <= k < |all| && all[k].id == [];
      if k < |init| {
        assert init[k] == all[k];
      }
    }
  }

  /** An empty id is reported exactly when some sensor has one. */
  lemma {:induction false} EmptyIdInAll(sensors: seq<Sensor>, units: set<string>)
    ensures EmptyId in AllSensorFindings(sensors, units) <==> HasEmptyId(sensors)
  {
    if sensors != [] {
      var init, s := sensors[..|sensors| - 1], sensors[|sensors| - 1];
      assert sensors == init + [s];
      EmptyIdInAll(init, units);
      EmptyIdInSensor(s, units);
      HasEmptyIdSnoc(init, s);
      var a, b := AllSensorFindings(init, units), SensorFindings(s, units);
      assert AllSensorFindings(sensors, units) == a + b;
      assert EmptyId in a + b <==> EmptyId in a || EmptyId in b;
    }
  }

  /** "Some sensor ids are not unique" is reported once exactly when two sensors share an id. */
  lemma IdsNotUniqueCount(sensors: seq<Sensor>, units: set<string>)
    ensures multiset(Findings(sensors, units))[IdsNotUnique] == if DistinctIds(sensors) then 0 else 1
  {
    IdSetSize(sensors);
    NoAggregateInSensorFindings(sensors, units);
  }

  /** A sensor that passes every per-sensor rule. */
  predicate SensorValid(s: Sensor, units: set<string>) {
    && s.id != []
    && s.displayName != []
    && s.skysparkMarkerTags != []
    && (forall k :: 0 <= k < |s.skysparkMarkerTags| ==> ValidTagName(s.skysparkMarkerTags[k]))
    && (match s.unit
        case None => true
        case Some(u) => s.sensorType == Numeric && u in units)
  }

  lemma {:induction false} TagFindingsEmptyIff(id: string, tags: seq<string>)
    ensures TagFindings(id, tags) == [] <==> forall k :: 0 <= k < |tags| ==> ValidTagName(tags[k])
  {
    if tags != [] {
      var init := tags[..|tags| - 1];
      TagFindingsEmptyIff(id, init);
      if forall k :: 0 <= k < |tags| ==> ValidTagName(tags[k]) {
        forall k | 0 <= k < |init| ensures ValidTagName(init[k]) {
          assert init[k] == tags[k];
        }
      }
      if TagFindings(id, tags) == [] {
        forall k | 0 <= k < |tags| ensures ValidTagName(tags[k]) {
          if k < |init| {
            assert tags[k] == init[k];
          }
        }
      }
    }
  }

  lemma SensorFindingsEmptyIff(s: Sensor, units: set<string>)
    ensures SensorFindings(s, units) == [] <==> SensorValid(s, units)
  {
    TagFindingsEmptyIff(s.id, s.skysparkMarkerTags);
  }

  lemma {:induction false} AllSensorFindingsEmptyIff(sensors: seq<Sensor>, units: set<string>)
    ensures AllSensorFindings(sensors, units) == []
            <==> forall i :: 0 <= i < |sensors| ==> SensorValid(sensors[i], units)
  {
    if sensors != [] {
      var init := sensors[..|sensors| - 1];
      AllSensorFindingsEmptyIff(init, units);
      SensorFindingsEmptyIff(sensors[|sensors| - 1], units);
      if forall i :: 0 <= i < |sensors| ==> SensorValid(sensors[i], units) {
        forall i | 0 <= i < |init| ensures SensorValid(init[i], units) {
          assert init[i] == sensors[i];
        }
      }
      if forall i :: 0 <= i < |init| ==> SensorValid(init[i], units) {
        forall i | 0 <= i < |sensors| - 1 ensures SensorValid(sensors[i], units) {
          assert init[i] == sensors[i];
        }
      }
    }
  }

  /**
   * The pass reports nothing exactly when no two sensors share an id and
   * every sensor passes every rule.
   */
  lemma FindingsEmptyIff(sensors: seq<Sensor>, units: set<string>)
    ensures Findings(sensors, units) == []
            <==> DistinctIds(sensors) && forall i :: 0 <= i < |sensors| ==> SensorValid(sensors[i], units)
  {
    IdSetSize(sensors);
    AllSensorFindingsEmptyIff(sensors, units);
  }
}
