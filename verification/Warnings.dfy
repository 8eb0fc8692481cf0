/** What a snapshot row carries of a warning's text (internal/nws/tags.go, internal/nws/detection.go). */
module Warnings {
  /** The tags of a warning; every field is text, and empty means missing. */
  datatype WarningTags = WarningTags(
    tornado: string, tornadoDamageThreat: string, hail: string, maxHailSize: string,
    wind: string, maxWindGust: string, thunderstormDamageThreat: string, flashFlood: string,
    flashFloodDamageThreat: string, expectedRainfallRate: string, spotterActivation: string, source: string)

  datatype State = RadarIndicated | Observed

  datatype DamageThreat = Base | Considerable | Catastrophic

  datatype TornadoDetection = TornadoDetection(
    detection: State,
    confirmed: bool,
    damageThreat: DamageThreat,
    sourceText: string)
}
