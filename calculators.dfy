/**
 * app/utils/calculators.py: the length of a shift (whole hours, remaining
 * minutes, exact decimal hours and the "HH:MM" text) and the three-tier pay
 * rule around the six-hour mark.
 */
module Calculators {
  import opened Text
  import opened Calendar
  import opened Clock
  import Settings

  /** The dictionary calculate_worked_hours returns. */
  datatype WorkedHours = WorkedHours(horas: int, minutos: int, totalHoras: real, horasFormateadas: string)

  /** The three values of "tipo_calculo". */
  datatype Kind = HorasNormales | Bono6h | HorasExtra

  /** The "tipo_calculo" string of each kind. */
  function KindName(k: Kind): string {
    match k
    case HorasNormales => "horas_normales"
    case Bono6h => "bono_6h"
    case HorasExtra => "horas_extra"
  }

  /** The dictionary calculate_payment returns. */
  datatype Payment = Payment(pagoBase: real, tipoCalculo: Kind, valorHora: int, bonoSeisHoras: int)

  /** "HH:MM": both fields zero-padded to two characters. */
  function FormatHours(horas: int, minutos: int): string {
    ZeroPad(horas, 2) + ":" + ZeroPad(minutos, 2)
  }

  lemma FormatHoursDigits(horas: int, minutos: int)
    requires 0 <= horas < 100 && 0 <= minutos < 100
    ensures FormatHours(horas, minutos) == [DigitChar(horas / 10), DigitChar(horas % 10), ':',
                                            DigitChar(minutos / 10), DigitChar(minutos % 10)]
  {
    var h := [DigitChar(horas / 10), DigitChar(horas % 10)];
    var m := [DigitChar(minutos / 10), DigitChar(minutos % 10)];
    ZeroPadTwo(horas);
    ZeroPadTwo(minutos);
    assert FormatHours(horas, minutos) == h + ":" + m;
    JoinHours(h, m);
  }

  lemma JoinHours(h: string, m: string)
    requires |h| == 2 && |m| == 2
    ensures h + ":" + m == [h[0], h[1], ':', m[0], m[1]]
  {
  }

  /**
   * calculate_worked_hours(entrada, salida, fecha). Both times are put on the
   * same date; hours and minutes are floor divisions, so seconds past the last
   * whole minute are dropped, not rounded.
   */
  function CalculateWorkedHours(entrada: Time, salida: Time, fecha: Date): (r: WorkedHours)
    requires Valid(fecha)
    ensures 0 <= r.minutos < 60
    ensures r.horas * 3600 + r.minutos * 60 <= salida - entrada < r.horas * 3600 + r.minutos * 60 + 60
    ensures r.totalHoras * 3600.0 == (salida - entrada) as real
    ensures r.horasFormateadas == FormatHours(r.horas, r.minutos)
  {
    var totalSegundos := TotalSeconds(Combine(fecha, entrada), Combine(fecha, salida));
    CombineSameDate(fecha, entrada, salida);
    var horas := totalSegundos / 3600;
    var minutos := totalSegundos % 3600 / 60;
    WorkedHours(horas, minutos, totalSegundos as real / 3600.0, FormatHours(horas, minutos))
  }

  /** The date a shift is put on never changes its length. */
  lemma WorkedHoursIgnoresDate(entrada: Time, salida: Time, f1: Date, f2: Date)
    requires Valid(f1) && Valid(f2)
    ensures CalculateWorkedHours(entrada, salida, f1) == CalculateWorkedHours(entrada, salida, f2)
  {
    CombineSameDate(f1, entrada, salida);
    CombineSameDate(f2, entrada, salida);
  }

  /** The hours and minutes are the only ones meeting the floor bounds (so the bounds pin the result down). */
  lemma WorkedHoursUnique(entrada: Time, salida: Time, fecha: Date, h: int, m: int)
    requires Valid(fecha)
    requires 0 <= m < 60 && h * 3600 + m * 60 <= salida - entrada < h * 3600 + m * 60 + 60
    ensures CalculateWorkedHours(entrada, salida, fecha).horas == h
    ensures CalculateWorkedHours(entrada, salida, fecha).minutos == m
  {
    var r := CalculateWorkedHours(entrada, salida, fecha);
    var a, b := r.horas * 60 + r.minutos, h * 60 + m;
    assert a * 60 <= salida - entrada < a * 60 + 60;
    assert b * 60 <= salida - entrada < b * 60 + 60;
    assert a == b;
  }

  /** A shift that does not run backwards is formatted as exactly two digits, a colon and two digits. */
  lemma {:induction false} FormattedIsDigits(entrada: Time, salida: Time, fecha: Date)
    requires Valid(fecha) && entrada <= salida
    ensures var r := CalculateWorkedHours(entrada, salida, fecha);
      0 <= r.horas < 24 &&
      r.horasFormateadas == [DigitChar(r.horas / 10), DigitChar(r.horas % 10), ':',
                             DigitChar(r.minutos / 10), DigitChar(r.minutos % 10)]
  {
    var r := CalculateWorkedHours(entrada, salida, fecha);
    assert 0 <= r.horas < 24;
    FormatHoursDigits(r.horas, r.minutos);
  }

  /** A shift whose exit is before its entry gets negative hours, shown with a minus sign. */
  lemma BackwardsShiftIsNegative(entrada: Time, salida: Time, fecha: Date)
    requires Valid(fecha) && salida < entrada
    ensures var r := CalculateWorkedHours(entrada, salida, fecha);
      r.horas < 0 && r.totalHoras < 0.0 && r.horasFormateadas[0] == '-'
  {
    var r := CalculateWorkedHours(entrada, salida, fecha);
    NegativeZeroPad(r.horas, 2);
  }

  /** 8:00 to 16:30 on any date is 8 h 30 min: "08:30" and 8.5 hours. */
  lemma EightAndAHalfHours(fecha: Date)
    requires Valid(fecha)
    ensures var r := CalculateWorkedHours(TimeOf(8, 0, 0), TimeOf(16, 30, 0), fecha);
      r.horas == 8 && r.minutos == 30 && r.totalHoras == 8.5 && r.horasFormateadas == "08:30"
  {
    var e, x := TimeOf(8, 0, 0), TimeOf(16, 30, 0);
    assert x - e == 30600;
    WorkedHoursUnique(e, x, fecha, 8, 30);
    assert ZeroPad(8, 2) == "08";
    assert ZeroPad(30, 2) == "30";
  }

  /** The tolerance as a fraction of an hour: TOLERANCIA_MINUTOS / 60. */
  function Tolerancia(): real {
    Settings.ToleranciaMinutos as real / 60.0
  }

  function Abs(x: real): real {
    if x < 0.0 then -x else x
  }

  /**
   * calculate_payment(horas_trabajadas): hourly pay below the six-hour band,
   * the flat bonus inside it, bonus plus hourly overtime above it.
   */
  function CalculatePayment(horasTrabajadas: real): (p: Payment)
    ensures p.valorHora == Settings.ValorHora && p.bonoSeisHoras == Settings.Bono6h
    ensures p.tipoCalculo == Bono6h ==> p.pagoBase == Settings.Bono6h as real
    ensures horasTrabajadas >= 0.0 ==> p.pagoBase >= horasTrabajadas * Settings.ValorHora as real
  {
    var tolerancia := Tolerancia();
    if horasTrabajadas < 6.0 - tolerancia then
      Payment(horasTrabajadas * Settings.ValorHora as real, HorasNormales, Settings.ValorHora, Settings.Bono6h)
    else if Abs(horasTrabajadas - 6.0) <= tolerancia then
      Payment(Settings.Bono6h as real, Bono6h, Settings.ValorHora, Settings.Bono6h)
    else
      var horasExtra := horasTrabajadas - 6.0;
      Payment(Settings.Bono6h as real + horasExtra * Settings.ValorHora as real, HorasExtra, Settings.ValorHora, Settings.Bono6h)
  }

  /** Exactly one tier applies, and which one is decided by the band [5 h 59 min, 6 h 1 min]. */
  lemma PaymentTiers(h: real)
    ensures CalculatePayment(h).tipoCalculo == HorasNormales <==> h < 359.0 / 60.0
    ensures CalculatePayment(h).tipoCalculo == Bono6h <==> 359.0 / 60.0 <= h <= 361.0 / 60.0
    ensures CalculatePayment(h).tipoCalculo == HorasExtra <==> 361.0 / 60.0 < h
  {
  }

  /** The amount in each tier. */
  lemma PaymentAmounts(h: real)
    ensures var p := CalculatePayment(h);
      && (p.tipoCalculo == HorasNormales ==> p.pagoBase == 15500.0 * h)
      && (p.tipoCalculo == Bono6h ==> p.pagoBase == 100000.0)
      && (p.tipoCalculo == HorasExtra ==> p.pagoBase == 100000.0 + 15500.0 * (h - 6.0))
  {
  }

  /** Working longer never pays less, and never moves to a lower tier. */
  lemma PaymentMonotone(h1: real, h2: real)
    requires h1 <= h2
    ensures CalculatePayment(h1).pagoBase <= CalculatePayment(h2).pagoBase
    ensures CalculatePayment(h2).tipoCalculo == HorasNormales ==> CalculatePayment(h1).tipoCalculo == HorasNormales
    ensures CalculatePayment(h1).tipoCalculo == HorasExtra ==> CalculatePayment(h2).tipoCalculo == HorasExtra
  {
  }

  /** The worked examples: 3 h, 5 h 59 min, 5.98 h, 6 h and 8 h. */
  lemma PaymentExamples()
    ensures CalculatePayment(3.0) == Payment(46500.0, HorasNormales, 15500, 100000)
    ensures CalculatePayment(359.0 / 60.0) == Payment(100000.0, Bono6h, 15500, 100000)
    ensures CalculatePayment(5.98).tipoCalculo == HorasNormales
    ensures CalculatePayment(6.0) == Payment(100000.0, Bono6h, 15500, 100000)
    ensures CalculatePayment(8.0) == Payment(131000.0, HorasExtra, 15500, 100000)
    ensures KindName(CalculatePayment(3.0).tipoCalculo) == "horas_normales"
    ensures KindName(CalculatePayment(6.0).tipoCalculo) == "bono_6h"
    ensures KindName(CalculatePayment(8.0).tipoCalculo) == "horas_extra"
  {
  }
}
