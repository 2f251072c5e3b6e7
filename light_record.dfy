/** LightSamplingRecord: what a light's sample method writes for a shading
    point.  Only the four fields the lights write are modelled. */
module LightRecord {
  import opened VecMath

  class LightSamplingRecord {
    /** From the shading point towards the chosen point on the light. */
    var direction: Vec3
    /** The 1 / r^2 falloff (times the cosine at the source for area lights). */
    var attenuation: real
    /** How far the chosen point is from the shading point. */
    var distance: real
    /** The probability (point lights) or area density (area lights) of the
        chosen point. */
    var probability: real

    constructor ()
      ensures direction == Zero && attenuation == 0.0 && distance == 0.0 && probability == 0.0
    {
      direction := Zero;
      attenuation := 0.0;
      distance := 0.0;
      probability := 0.0;
    }
  }
}
