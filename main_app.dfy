/**
 * The older copies in app/main.py of the schedule check, the hour count and
 * the pay rule, the constants of its AppConfig class, and the step that adds
 * the chosen surcharge to the base pay. Each is related to its counterpart
 * in app/utils.
 */
module MainApp {
  import opened Wrappers
  import opened Calendar
  import opened Clock
  import Settings
  import Calculators
  import Validators
  import Text

  /** The business constants of class AppConfig. */
  const ValorHora: int := 15500
  const Bono6h: int := 100000
  const ToleranciaMinutos: int := 1
  const Recargos: seq<int> := [0, 5000, 10000, 15000, 20000, 25000, 30000, 35000, 40000]

  /** validate_schedule(entrada, salida) of app/main.py; the st.error side effect is dropped. */
  function ValidateSchedule(entrada: Time, salida: Time): (ok: bool)
    ensures ok <==> entrada < salida
  {
    if salida <= entrada then false else true
  }

  /**
   * The older check accepts every shift the utils check accepts, and the
   * only shifts it accepts beyond those are the ones longer than 16 hours.
   */
  lemma ScheduleChecksAgree(entrada: Time, salida: Time, fecha: Date)
    requires Valid(fecha)
    ensures ValidateSchedule(entrada, salida) <==> entrada < salida
    ensures Validators.ValidateSchedule(entrada, salida, fecha).0 ==> ValidateSchedule(entrada, salida)
    ensures ValidateSchedule(entrada, salida) && !Validators.ValidateSchedule(entrada, salida, fecha).0
      <==> entrada < salida && salida - entrada > Validators.MaxShiftSeconds
  {
  }

  /** A shift from midnight (second 0) to 23:59:59 (second 86399) passes the older check and is refused by the utils check. */
  lemma LongShiftDisagreement(fecha: Date)
    requires Valid(fecha)
    ensures ValidateSchedule(0, 86399)
    ensures Validators.ValidateSchedule(0, 86399, fecha) == (false, Some(Validators.MsgTurnoLargo))
  {
  }

  /** The dict calculate_hours returns. */
  datatype HoursData = HoursData(horasFormateadas: string, totalHoras: real)

  /**
   * calculate_hours(entrada, salida): each time is put on the date its own
   * call of date.today() returns, entradaDay for the entry and salidaDay for
   * the exit. The decimal hours are the seconds between the two datetimes
   * over 3600; when both calls return the same date, the text is the one
   * calculate_worked_hours gives on that date.
   */
  function CalculateHours(entrada: Time, salida: Time, entradaDay: Date, salidaDay: Date): (r: HoursData)
    requires Valid(entradaDay) && Valid(salidaDay)
    ensures r.totalHoras == (SecondsPerDay * (ToOrdinal(salidaDay) - ToOrdinal(entradaDay)) + salida - entrada) as real / 3600.0
    ensures entradaDay == salidaDay ==>
      r.horasFormateadas == Calculators.CalculateWorkedHours(entrada, salida, entradaDay).horasFormateadas
  {
    var totalSegundos := TotalSeconds(Combine(entradaDay, entrada), Combine(salidaDay, salida));
    var horasInt := totalSegundos / 3600;
    var minutos := totalSegundos % 3600 / 60;
    HoursData(Calculators.FormatHours(horasInt, minutos), totalSegundos as real / 3600.0)
  }

  /** When both calls return the same date, whatever it is, the older hour count gives what calculate_worked_hours gives for any date. */
  lemma HoursAgree(entrada: Time, salida: Time, today: Date, fecha: Date)
    requires Valid(today) && Valid(fecha)
    ensures CalculateHours(entrada, salida, today, today).horasFormateadas
      == Calculators.CalculateWorkedHours(entrada, salida, fecha).horasFormateadas
    ensures CalculateHours(entrada, salida, today, today).totalHoras
      == Calculators.CalculateWorkedHours(entrada, salida, fecha).totalHoras
  {
    Calculators.WorkedHoursIgnoresDate(entrada, salida, today, fecha);
  }

  /**
   * When the clock passes midnight between the two calls, the exit lands on
   * the next day and the shift counts 24 hours more than calculate_worked_hours
   * gives.
   */
  lemma MidnightBetweenCalls(entrada: Time, salida: Time, entradaDay: Date, salidaDay: Date)
    requires Valid(entradaDay) && Valid(salidaDay) && ToOrdinal(salidaDay) == ToOrdinal(entradaDay) + 1
    ensures CalculateHours(entrada, salida, entradaDay, salidaDay).totalHoras
      == Calculators.CalculateWorkedHours(entrada, salida, entradaDay).totalHoras + 24.0
  {
  }

  /** So 08:00 to 17:00 across midnight becomes "33:00", 33 hours, paid 518500. */
  lemma MidnightExample(entradaDay: Date, salidaDay: Date)
    requires Valid(entradaDay) && Valid(salidaDay) && ToOrdinal(salidaDay) == ToOrdinal(entradaDay) + 1
    ensures var r := CalculateHours(TimeOf(8, 0, 0), TimeOf(17, 0, 0), entradaDay, salidaDay);
      r.horasFormateadas == "33:00" && r.totalHoras == 33.0 && CalculatePayment(r.totalHoras).0 == 518500.0
  {
    var r := CalculateHours(TimeOf(8, 0, 0), TimeOf(17, 0, 0), entradaDay, salidaDay);
    var t := TotalSeconds(Combine(entradaDay, TimeOf(8, 0, 0)), Combine(salidaDay, TimeOf(17, 0, 0)));
    assert t == 118800;
    ThirtyThreeHours(t);
    assert r.horasFormateadas == Calculators.FormatHours(33, 0);
    Calculators.FormatHoursDigits(33, 0);
    assert Text.DigitChar(3) == '3' && Text.DigitChar(0) == '0';
    assert r.horasFormateadas == ['3', '3', ':', '0', '0'];
  }

  /** 118800 seconds are 33 hours and no minutes. */
  lemma ThirtyThreeHours(t: int)
    requires t == 118800
    ensures t / 3600 == 33 && t % 3600 / 60 == 0
  {
  }

  /** calculate_payment(horas) of app/main.py, with the AppConfig constants. */
  function CalculatePayment(horas: real): (r: (real, Calculators.Kind))
    ensures r.1 == Calculators.HorasNormales <==> horas < 359.0 / 60.0
    ensures r.1 == Calculators.Bono6h <==> 359.0 / 60.0 <= horas <= 361.0 / 60.0
    ensures r.1 == Calculators.Bono6h ==> r.0 == Bono6h as real
    ensures r.1 == Calculators.HorasExtra ==> r.0 == Bono6h as real + (horas - 6.0) * ValorHora as real
  {
    var tolerancia := ToleranciaMinutos as real / 60.0;
    if horas < 6.0 - tolerancia then
      (horas * ValorHora as real, Calculators.HorasNormales)
    else if Calculators.Abs(horas - 6.0) <= tolerancia then
      (Bono6h as real, Calculators.Bono6h)
    else
      var horasExtra := horas - 6.0;
      (Bono6h as real + horasExtra * ValorHora as real, Calculators.HorasExtra)
  }

  /** AppConfig holds the same constants as Settings. */
  lemma ConfigMatchesSettings()
    ensures ValorHora == Settings.ValorHora && Bono6h == Settings.Bono6h
    ensures ToleranciaMinutos == Settings.ToleranciaMinutos && Recargos == Settings.Recargos
  {
  }

  /** The two pay rules give the same amount and the same kind for every number of hours. */
  lemma PaymentAgrees(horas: real)
    ensures var p := Calculators.CalculatePayment(horas);
      CalculatePayment(horas) == (p.pagoBase, p.tipoCalculo)
  {
  }

  /** What the page shows after a valid schedule. */
  datatype Results = Results(hoursData: HoursData, pagoBase: real, tipoCalculo: Calculators.Kind, pagoTotal: real)

  /**
   * The calculation step of main(): nothing when the schedule check fails,
   * otherwise the hours, the base pay and its kind, and the base pay plus
   * the chosen surcharge.
   */
  function Calculate(entrada: Time, salida: Time, entradaDay: Date, salidaDay: Date, recargo: int): (r: Option<Results>)
    requires Valid(entradaDay) && Valid(salidaDay)
    ensures r.Some? <==> entrada < salida
    ensures r.Some? ==> r.value.pagoTotal == r.value.pagoBase + recargo as real
  {
    if ValidateSchedule(entrada, salida) then
      var hoursData := CalculateHours(entrada, salida, entradaDay, salidaDay);
      var (pagoBase, tipoCalculo) := CalculatePayment(hoursData.totalHoras);
      var pagoTotal := pagoBase + recargo as real;
      Some(Results(hoursData, pagoBase, tipoCalculo, pagoTotal))
    else
      None
  }

  /** The surcharges on offer are the multiples of 5000 from 0 to 40000. */
  lemma {:induction false} RecargosAreSteps(recargo: int)
    ensures recargo in Recargos <==> 0 <= recargo <= 40000 && recargo % 5000 == 0
  {
    if 0 <= recargo <= 40000 && recargo % 5000 == 0 {
      var k := recargo / 5000;
      assert 0 <= k <= 8 && recargo == 5000 * k;
      assert Recargos[k] == recargo;
    }
  }

  /**
   * With a surcharge from the list, the total exceeds the base pay by 0 to
   * 40000, and, when both date.today() calls return the same date, the base
   * pay is the one the utils rules give for the shift.
   */
  lemma CalculateMatchesUtils(entrada: Time, salida: Time, today: Date, recargo: int)
    requires Valid(today) && recargo in Recargos && entrada < salida
    ensures var r := Calculate(entrada, salida, today, today, recargo).value;
      && 0.0 <= r.pagoTotal - r.pagoBase <= 40000.0
      && var w := Calculators.CalculateWorkedHours(entrada, salida, today);
         var p := Calculators.CalculatePayment(w.totalHoras);
         r.hoursData.horasFormateadas == w.horasFormateadas && r.pagoBase == p.pagoBase && r.tipoCalculo == p.tipoCalculo
  {
    RecargosAreSteps(recargo);
    HoursAgree(entrada, salida, today, today);
    PaymentAgrees(CalculateHours(entrada, salida, today, today).totalHoras);
  }
}
