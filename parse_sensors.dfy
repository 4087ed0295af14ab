/**
 * `parse_sensors` without its I/O: the unit catalogue is read from the
 * reference text, the decoded sensor list is normalised, and the normalised
 * list is validated against the catalogue.
 */
module ParseSensors {
  import opened Sensors
  import opened Units
  import opened Normalize
  import opened Validate

  /**
   * The normalised list (what is printed as JSON) and the findings reported
   * about it, in the order they are printed.
   */
  method ParseSensors(rawSensors: seq<Sensor>, unitsText: string)
    returns (sensors: seq<Sensor>, findings: seq<Finding>)
    ensures sensors == CleanRawSensors(rawSensors)
    ensures findings == Findings(CleanRawSensors(rawSensors), UnitSet(unitsText))
  {
    var units := Units.Units(unitsText);
    sensors := CleanRawSensors(rawSensors);
    findings := ValidateSensors(sensors, units);
  }

  /**
   * When no two sensors share a trimmed id, the order of the input file
   * changes neither the output nor the findings.
   */
  lemma ParseSensorsOrderIndependent(a: seq<Sensor>, b: seq<Sensor>, unitsText: string)
    requires multiset(a) == multiset(b)
    requires forall i, j :: 0 <= i < j < |a| ==> Text.Trim(a[i].id) != Text.Trim(a[j].id)
    ensures CleanRawSensors(a) == CleanRawSensors(b)
    ensures Findings(CleanRawSensors(a), UnitSet(unitsText)) == Findings(CleanRawSensors(b), UnitSet(unitsText))
  {
    CleanRawSensorsOrderIndependent(a, b);
  }

  /**
   * A raw sensor whose id is blank or only whitespace, and only such a
   * sensor, makes the pass report an empty id.
   */
  lemma EmptyIdReported(rawSensors: seq<Sensor>, unitsText: string)
    ensures EmptyId in Findings(CleanRawSensors(rawSensors), UnitSet(unitsText))
            <==> exists i :: 0 <= i < |rawSensors| && Text.Trim(rawSensors[i].id) == []
  {
    var sensors := CleanRawSensors(rawSensors);
    var units := UnitSet(unitsText);
    EmptyIdInAll(sensors, units);
    assert EmptyId in Findings(sensors, units) <==> EmptyId in AllSensorFindings(sensors, units);
    var cleaned := Seqs.MapSeq(rawSensors, CleanSensor);
    if exists i :: 0 <= i < |rawSensors| && Text.Trim(rawSensors[i].id) == [] {
      var i :| 0 <= i < |rawSensors| && Text.Trim(rawSensors[i].id) == [];
      assert cleaned[i] in multiset(sensors);
      var k := Seqs.IndexOf(sensors, cleaned[i]);
      assert sensors[k].id == [];
    }
    if HasEmptyId(sensors) {
      var k :| 0 <= k < |sensors| && sensors[k].id == [];
      assert sensors[k] in multiset(cleaned);
      var i := Seqs.IndexOf(cleaned, sensors[k]);
      assert CleanSensor(rawSensors[i]).id == [];
    }
  }
}
