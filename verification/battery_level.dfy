/**
 * The battery-level classifier of the firmware: a reading of the capacitor
 * voltage, truncated to a byte, compared with two thresholds derived from the
 * configured fractions of the 48..60 scale.
 */
module BatteryLevel {
  /** Configured fractions of the scale (CAPA_LVL_1, CAPA_LVL_2). */
  const CAPA_LVL_1: real := 0.55
  const CAPA_LVL_2: real := 0.82

  /** `(uint8_t)(capa * 12) + 48`: the fraction scaled to the 12-step range, truncated, offset by 48. */
  function LevelThreshold(capa: real): (t: int)
    requires 0.0 <= capa < 1.0
    ensures 48 <= t < 60
  {
    (capa * 12.0).Floor + 48
  }

  /** Both thresholds fold to constants inside the 48..60 scale. */
  lemma ThresholdValues()
    ensures LevelThreshold(CAPA_LVL_1) == 54
    ensures LevelThreshold(CAPA_LVL_2) == 57
  {
    assert CAPA_LVL_1 * 12.0 == 6.6;
    assert CAPA_LVL_2 * 12.0 == 9.84;
  }

  /** `analogRead_CapaLvl`: the 8-bit truncated reading classified into levels 0, 1 and 2. */
  function CapaLvl(reading: nat): (level: nat)
    ensures level <= 2
  {
    var value := reading % 256;
    if value < LevelThreshold(CAPA_LVL_1) then 0
    else if value < LevelThreshold(CAPA_LVL_2) then 1
    else 2
  }

  /** The three bands, in terms of the truncated reading. */
  lemma CapaLvlBands(reading: nat)
    ensures CapaLvl(reading) == 0 <==> reading % 256 < 54
    ensures CapaLvl(reading) == 1 <==> 54 <= reading % 256 < 57
    ensures CapaLvl(reading) == 2 <==> 57 <= reading % 256
  {
    ThresholdValues();
  }

  /** Only the low byte of the reading matters. */
  lemma CapaLvlTruncates(reading: nat)
    ensures CapaLvl(reading) == CapaLvl(reading % 256)
  {
  }

  /** Within one byte the level never decreases as the reading grows; a wider reading can wrap to a lower level. */
  lemma CapaLvlMonotone(a: nat, b: nat)
    requires a <= b < 256
    ensures CapaLvl(a) <= CapaLvl(b)
  {
    CapaLvlBands(a);
    CapaLvlBands(b);
  }

  lemma CapaLvlWraps()
    ensures CapaLvl(255) == 2 && CapaLvl(256) == 0
  {
    CapaLvlBands(255);
    CapaLvlBands(256);
  }
}
