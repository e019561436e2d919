/** The values that flow from the packet sources to the camera. */
module FrameModel {
  import opened Wrappers
  import opened TimestampNormalizer

  const DEPTH_WIDTH := 40
  const CALIBRATION_PARAMETER_COUNT := 12

  type U16 = x: int | 0 <= x < 0x1_0000
  type RawCalibration = r: seq<real> | |r| == CALIBRATION_PARAMETER_COUNT
    witness [0.0, 0.0, 0.0, 0.0, 0.0, 0.0, 0.0, 0.0, 0.0, 0.0, 0.0, 0.0]

  datatype TransportType = SerialTransport | UdpTransport | UvcTransport
  datatype UvcStreamProfile = Auto | Depth40x30 | Mixed120x90 | PointCloud160x120 | Raw480x360
  datatype TimestampUnit = UnknownUnit | Milliseconds | Microseconds | Nanoseconds
  datatype PointCloudSource = Direct | DerivedFromDepth

  datatype Point = Point(x: real, y: real, z: real)

  datatype Calibration = Calibration(
    fx: real, fy: real, cx: real, cy: real,
    k1: real, k2: real, p1: real, p2: real, k3: real, k4: real, k5: real, k6: real,
    raw: RawCalibration, valid: bool)

  const NO_CALIBRATION := Calibration(0.0, 0.0, 0.0, 0.0, 0.0, 0.0, 0.0, 0.0, 0.0, 0.0, 0.0, 0.0,
                                      [0.0, 0.0, 0.0, 0.0, 0.0, 0.0, 0.0, 0.0, 0.0, 0.0, 0.0, 0.0], false)

  datatype DeviceTimestamp = DeviceTimestamp(valid: bool, value: nat, unit: TimestampUnit, raw0: U32, raw1: U32)

  datatype DeviceInfo = DeviceInfo(
    protocolVersion: Option<bv8>, socVersion: Option<string>, socSerialNumber: Option<string>,
    sensorVersion: Option<string>, sensorSerialNumber: Option<string>, stateCode: Option<bv8>,
    sensorTemperature: Option<bv32>, versionText: Option<string>, vendorBlob: seq<bv8>, eeprom: seq<bv8>)

  const NO_INFO := DeviceInfo(None, None, None, None, None, None, None, None, [], [])

  datatype ImageFrame = ImageFrame(width: U32, height: U32, data: seq<U16>)
  datatype PointCloudFrame = PointCloudFrame(width: U32, height: U32, source: PointCloudSource, points: seq<Point>)
  datatype ConfidenceFrame = ConfidenceFrame(valid: bool, width: U32, height: U32, bitDepth: U16, values: seq<U16>)
  datatype HistogramFrame = HistogramFrame(valid: bool, width: U32, height: U32, bins: seq<U16>)

  const NO_DEPTH := ImageFrame(0, 0, [])
  const NO_CLOUD := PointCloudFrame(0, 0, DerivedFromDepth, [])
  const NO_CONFIDENCE := ConfidenceFrame(false, 0, 0, 0, [])
  const NO_HISTOGRAM := HistogramFrame(false, 0, 0, [])

  datatype Measurement = Measurement(
    transport: TransportType, profile: UvcStreamProfile, clock: DeviceTimestamp,
    calibration: Option<Calibration>, depth: ImageFrame, cloud: PointCloudFrame,
    confidence: ConfidenceFrame, histogram: HistogramFrame)

  const NO_MEASUREMENT := Measurement(
    SerialTransport, Auto, DeviceTimestamp(false, 0, UnknownUnit, 0, 0), None,
    NO_DEPTH, NO_CLOUD, NO_CONFIDENCE, NO_HISTOGRAM)

  datatype EventType = NoEvent | InfoUpdate | MeasurementEvent

  datatype SourceEvent = SourceEvent(
    kind: EventType, info: DeviceInfo, calibration: Option<Calibration>, measurement: Measurement,
    integrityName: string)

  const NOTHING := SourceEvent(NoEvent, NO_INFO, None, NO_MEASUREMENT, "n/a")

  /** What one call of a packet source returns: an error, or an event. */
  datatype Polled = Failed | Event(event: SourceEvent)

  // ---- Merging device info: present fields win

  function MergeOptional<T>(update: Option<T>, target: Option<T>): Option<T> {
    if update.Some? then update else target
  }

  function MergeBlob(update: seq<bv8>, target: seq<bv8>): seq<bv8> {
    if update != [] then update else target
  }

  function MergeDeviceInfo(update: DeviceInfo, target: DeviceInfo): DeviceInfo {
    DeviceInfo(
      MergeOptional(update.protocolVersion, target.protocolVersion),
      MergeOptional(update.socVersion, target.socVersion),
      MergeOptional(update.socSerialNumber, target.socSerialNumber),
      MergeOptional(update.sensorVersion, target.sensorVersion),
      MergeOptional(update.sensorSerialNumber, target.sensorSerialNumber),
      MergeOptional(update.stateCode, target.stateCode),
      MergeOptional(update.sensorTemperature, target.sensorTemperature),
      MergeOptional(update.versionText, target.versionText),
      MergeBlob(update.vendorBlob, target.vendorBlob),
      MergeBlob(update.eeprom, target.eeprom))
  }

  predicate HasAnyDeviceInfo(info: DeviceInfo) {
    info != NO_INFO
  }

  /** Merging is associative with the empty info as unit, so a cache is the merge of its whole history. */
  lemma MergeAssociative(a: DeviceInfo, b: DeviceInfo, c: DeviceInfo)
    ensures MergeDeviceInfo(a, MergeDeviceInfo(b, c)) == MergeDeviceInfo(MergeDeviceInfo(a, b), c)
    ensures MergeDeviceInfo(NO_INFO, c) == c == MergeDeviceInfo(c, NO_INFO)
  {
  }
}
