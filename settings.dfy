/** The business constants of app/config/settings.py. Credentials and UI strings are not modelled. */
module Settings {
  /** Pay per hour worked, in pesos. */
  const ValorHora: int := 15500
  /** Flat pay for a shift of six hours, within the tolerance. */
  const Bono6h: int := 100000
  /** Half-width of the six-hour band, in minutes. */
  const ToleranciaMinutos: int := 1
  /** Longest shift, in hours (the validator writes 16 itself rather than reading this). */
  const HorasMaximoTurno: int := 16
  /** The surcharges a user may add to a shift. */
  const Recargos: seq<int> := [0, 5000, 10000, 15000, 20000, 25000, 30000, 35000, 40000]
}
