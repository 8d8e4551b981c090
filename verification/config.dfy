/**
 The derived resolution constants of the plotter: motor steps per millimetre, the
 machine's dots per inch, the resolution images are processed at, and that resolution
 converted back to steps per millimetre. All arithmetic is exact (reals).
 */
module Config {

  const MmPerInch: real := 25.4

  // Shipped machine parameters and targets.
  const TargetDpi: real := 600.0
  const PlotterWidthMm: real := 115.0
  const PlotterHeightMm: real := 115.0
  const EffectiveStepsPerRev: int := 4096
  const BeltPitchMm: real := 2.0
  const PulleyTeeth: int := 20
  const PenNibMm: real := 0.5

  /** The four derived resolutions. */
  datatype Resolution = Resolution(
    physicalStepsPerMm: real,
    machineDpi: real,
    processingDpi: real,
    processingStepsPerMm: real)

  /** Steps per revolution over millimetres of belt per revolution, then to dots per inch;
      the processing resolution is the smaller of the machine's and the target. */
  function Derive(stepsPerRev: int, pulleyTeeth: int, beltPitchMm: real, targetDpi: real): (r: Resolution)
    requires pulleyTeeth as real * beltPitchMm != 0.0
    ensures r.physicalStepsPerMm * (pulleyTeeth as real * beltPitchMm) == stepsPerRev as real
    ensures r.machineDpi == r.physicalStepsPerMm * MmPerInch
    ensures r.processingDpi <= r.machineDpi && r.processingDpi <= targetDpi
    ensures r.processingDpi == r.machineDpi || r.processingDpi == targetDpi
    ensures r.processingStepsPerMm * MmPerInch == r.processingDpi
    ensures r.processingStepsPerMm <= r.physicalStepsPerMm
  {
    var physical := stepsPerRev as real / (pulleyTeeth as real * beltPitchMm);
    var machine := physical * MmPerInch;
    var processing := if machine < targetDpi then machine else targetDpi;
    Resolution(physical, machine, processing, processing / MmPerInch)
  }

  /** The resolutions of the shipped configuration. */
  function Shipped(): Resolution
  {
    Derive(EffectiveStepsPerRev, PulleyTeeth, BeltPitchMm, TargetDpi)
  }

  /** With 4096 steps per revolution, a 20-tooth pulley and a 2 mm belt the machine resolves
      102.4 steps/mm = 2600.96 dpi, more than the 600 dpi target, so images are processed
      at 600 dpi = 6000/254 steps/mm. */
  lemma ShippedResolution()
    ensures Shipped().physicalStepsPerMm == 102.4
    ensures Shipped().machineDpi == 2600.96
    ensures Shipped().machineDpi > TargetDpi
    ensures Shipped().processingDpi == 600.0
    ensures Shipped().processingStepsPerMm == 6000.0 / 254.0
  {
  }

  /** Processing steps per millimetre of the shipped configuration. */
  function ProcessingStepsPerMm(): (s: real)
    ensures s * MmPerInch == TargetDpi
  {
    ShippedResolution();
    Shipped().processingStepsPerMm
  }
}
