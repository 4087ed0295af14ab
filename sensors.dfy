/** The sensor record of the catalogue, as the JSON codec hands it over. */
module Sensors {
  import opened Wrappers

  /** `SensorType`: what kind of value a sensor reports. */
  datatype SensorType = Bool | Numeric | String

  /**
   * `Sensor`: `unit` is optional and only meaningful for numeric sensors;
   * `skysparkMarkerTags` may hold duplicates.
   */
  datatype Sensor = Sensor(
    id: string,
    displayName: string,
    skysparkMarkerTags: seq<string>,
    sensorType: SensorType,
    unit: Option<string>)

  /** The key the sensor list is sorted and deduplicated by. */
  function SensorId(s: Sensor): string {
    s.id
  }
}
