/**
 * app/utils/validators.py: the checks a shift passes before it is recorded.
 * Each returns the pair (es_valido, mensaje_error) the source returns.
 */
module Validators {
  import opened Wrappers
  import opened Calendar
  import opened Clock

  const MsgSalidaAnterior := "❌ La hora de salida debe ser posterior a la hora de entrada"
  const MsgTurnoLargo := "❌ El turno no puede ser mayor a 16 horas"
  const MsgNoPositiva := "❌ La duración del turno debe ser positiva"
  const MsgFechaFutura := "❌ No se pueden registrar horarios para fechas futuras"

  /** Sixteen hours, in seconds. */
  const MaxShiftSeconds := 16 * 3600

  /**
   * validate_schedule(entrada, salida, fecha): the exit must come after the
   * entry, then the shift may last at most 16 hours (16 hours itself passes),
   * then it must be positive.
   */
  function ValidateSchedule(entrada: Time, salida: Time, fecha: Date): (r: (bool, Option<string>))
    requires Valid(fecha)
    ensures r.0 <==> r.1 == None
    ensures r.0 <==> entrada < salida && salida - entrada <= MaxShiftSeconds
    ensures salida <= entrada ==> r == (false, Some(MsgSalidaAnterior))
    ensures entrada < salida && salida - entrada > MaxShiftSeconds ==> r == (false, Some(MsgTurnoLargo))
  {
    if salida <= entrada then (false, Some(MsgSalidaAnterior))
    else
      var diferencia := TotalSeconds(Combine(fecha, entrada), Combine(fecha, salida));
      CombineSameDate(fecha, entrada, salida);
      var horasTrabajadas := diferencia as real / 3600.0;
      if horasTrabajadas > 16.0 then (false, Some(MsgTurnoLargo))
      else if horasTrabajadas <= 0.0 then (false, Some(MsgNoPositiva))
      else (true, None)
  }

  /** The "must be positive" rejection can never be returned: the ordering check already caught it. */
  lemma NonPositiveUnreachable(entrada: Time, salida: Time, fecha: Date)
    requires Valid(fecha)
    ensures ValidateSchedule(entrada, salida, fecha).1 != Some(MsgNoPositiva)
  {
  }

  /** The boundary: exactly 16 hours passes, one second more is rejected as too long. */
  lemma SixteenHoursBoundary(fecha: Date)
    requires Valid(fecha)
    ensures ValidateSchedule(TimeOf(6, 0, 0), TimeOf(22, 0, 0), fecha) == (true, None)
    ensures ValidateSchedule(TimeOf(6, 0, 0), TimeOf(22, 0, 1), fecha) == (false, Some(MsgTurnoLargo))
  {
  }

  /** validate_future_date(selected_date) against today's date: today itself passes. */
  function ValidateFutureDate(selectedDate: Date, today: Date): (r: (bool, Option<string>))
    ensures r.0 <==> r.1 == None
    ensures !r.0 <==> Before(today, selectedDate)
    ensures !r.0 ==> r.1 == Some(MsgFechaFutura)
  {
    if Before(today, selectedDate) then (false, Some(MsgFechaFutura)) else (true, None)
  }

  /** On valid dates, a date is rejected exactly when its ordinal is past today's. */
  lemma FutureDateByOrdinal(selectedDate: Date, today: Date)
    requires Valid(selectedDate) && Valid(today)
    ensures ValidateFutureDate(selectedDate, today).0 <==> ToOrdinal(selectedDate) <= ToOrdinal(today)
  {
    OrderIsOrdinalOrder(today, selectedDate);
  }
}
