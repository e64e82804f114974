# Shift pay calculator: a Dafny model

The application records work shifts. An employee enters a date, an entry time and an exit time, and a surcharge is picked from a fixed list. The application then:

- checks the schedule;
- computes the worked hours (whole hours, minutes, decimal hours and an `HH:MM` text);
- applies the three-tier pay rule around the six-hour mark;
- adds the surcharge to get the total;
- stores the row with its `Fecha` as `YYYY-MM-DD`.

Stored rows are later browsed week by week. That uses the Monday-to-Sunday window of a date, the table of week windows offered for a year, and a filter that keeps the rows of one window.

This project models that logic and proves its properties:

- the calculators, the validators and the date utilities of `app/utils`;
- the older copies of the schedule check, hour count and pay rule in `app/main.py`, with its `AppConfig` constants and the `pago_total = pago_base + recargo` step;
- the business constants of `app/config/settings.py`.

Modules, one per file:

- `Wrappers`: `Option` and `Result`.
- `Text`: decimal digits, zero padding and `str(int)`.
- `Calendar`: Python's `datetime.date`. It covers the proleptic Gregorian calendar for years 1..9999, `toordinal`/`fromordinal`, `weekday()`, and `date + timedelta` with its `OverflowError`. It also covers comparison, `str(date)`/`isoformat()`, `strftime('%d/%m')` and `strptime(s, '%Y-%m-%d')`.
- `Clock`: times of day as whole seconds since midnight, `datetime.combine` and `total_seconds()`.
- `Settings`: the business constants.
- `Calculators`: `app/utils/calculators.py`.
- `Validators`: `app/utils/validators.py`.
- `DateUtils`: `get_week_range`, `get_week_number` and `get_weeks_range` of `app/utils/date_utils.py`.
- `Records`: `filter_records_by_week` of `app/utils/date_utils.py`.
- `MainApp`: the parts of `app/main.py` listed above.

Modelling choices:

- **Arithmetic.** Hours and money are exact `real`s. Times and durations are whole seconds.
- **Today.** It is a parameter wherever the source reads the clock. The older `calculate_hours` calls `date.today()` once per time, so it takes two dates.
- **Loops.** The two looping functions of `date_utils.py` are methods with loop invariants. Each is proved equal to a specification function, and the lemmas are stated about that function.
- **Pay band.** 5.98 h is below 6 − 1/60 h, so it takes the hourly tier; only 5 h 59 min and above reach the bonus (`Calculators.PaymentExamples`).

## Model

| member | source | states |
|---|---|---|
| Calculators.CalculateWorkedHours | app/utils/calculators.py:9-32 | `minutos` is in [0, 60). `horas`·3600 + `minutos`·60 ≤ duration < that + 60, so seconds are truncated, not rounded. `total_horas`·3600 is the duration in seconds exactly. The text is the two zero-padded fields joined by a colon. |
| Calculators.WorkedHoursIgnoresDate | app/utils/calculators.py:17-20 | Both times are put on the same date, so the whole result is the same for any two dates. |
| Calculators.WorkedHoursUnique | app/utils/calculators.py:23-24 | The floor bounds determine hours and minutes: any pair meeting them is the pair returned. |
| Calculators.FormattedIsDigits | app/utils/calculators.py:31 | For a shift that does not run backwards, hours are below 24 and `horas_formateadas` is exactly two digits, `:`, two digits, spelling `horas` and `minutos`. |
| Calculators.FormatHoursDigits | app/utils/calculators.py:31 | `{h:02d}:{m:02d}` for fields below 100 is the five characters tens/units of h, colon, tens/units of m. |
| Calculators.BackwardsShiftIsNegative | app/utils/calculators.py:20-25 | An exit before the entry gives negative hours and decimal hours, and a text starting with `-`. |
| Calculators.EightAndAHalfHours | app/utils/calculators.py:9-32 | 08:00 to 16:30 gives 8 h, 30 min, 8.5 hours and `"08:30"` on any date. |
| Calculators.CalculatePayment | app/utils/calculators.py:38-66 | The result echoes `VALOR_HORA` and `BONO_6H`. The bonus tier pays exactly `BONO_6H`. No tier pays less than hours × `VALOR_HORA` for non-negative hours. |
| Calculators.PaymentTiers | app/utils/calculators.py:46-59 | Exactly one tier applies: hourly below 5 h 59 min (strict), the bonus in [5 h 59 min, 6 h 1 min], overtime above it. Each is stated as an if-and-only-if. |
| Calculators.PaymentAmounts | app/utils/calculators.py:48-58 | Hourly pays 15500·h. The bonus pays 100000. Overtime pays 100000 + 15500·(h − 6). |
| Calculators.PaymentMonotone | app/utils/calculators.py:48-58 | More hours never pay less and never fall to a lower tier. |
| Calculators.PaymentExamples | app/utils/calculators.py:48-65 | 3 h gives 46500 (hourly). 5 h 59 min and 6 h give 100000 (bonus). 5.98 h is hourly. 8 h gives 131000 (overtime). The kinds print as `horas_normales`, `bono_6h` and `horas_extra`. |
| Validators.ValidateSchedule | app/utils/validators.py:11-37 | The flag is false exactly when a message is present. It is true exactly when entry < exit and the shift lasts at most 16 h. exit ≤ entry gives the ordering message, checked first. A shift over 16 h gives the length message. |
| Validators.NonPositiveUnreachable | app/utils/validators.py:20-35 | The "must be positive" message is never returned. |
| Validators.SixteenHoursBoundary | app/utils/validators.py:31-32 | 06:00–22:00 (16 h exactly) passes. One second more is refused as too long. |
| Validators.ValidateFutureDate | app/utils/validators.py:43-50 | The date is refused exactly when it is after today, with the fixed message. Today itself passes. The flag is false exactly when a message is present. |
| Validators.FutureDateByOrdinal | app/utils/validators.py:47-50 | For valid dates, acceptance is ordinal(selected) ≤ ordinal(today). |
| Calendar.YearError | app/utils/date_utils.py:34 | `date(year, 1, 1)` for a year outside 1..9999 raises `OverflowError` exactly when the year is outside the C `int` range [−2³¹, 2³¹ − 1], and `ValueError` otherwise. |
| Calendar.AddDays | app/utils/date_utils.py:15-17 | `d + timedelta(days=k)` succeeds exactly when the ordinal stays in [1, 3652059], and then it moves the ordinal by k. Otherwise it is `OverflowError`. |
| Calendar.OrderIsOrdinalOrder | app/utils/date_utils.py:59 | Python's date comparison (`<`, `<=`, `==`) is comparison of ordinals. |
| Calendar.FromToOrdinal | app/utils/date_utils.py:15 | `fromordinal(toordinal(d)) == d` for every valid date. |
| Calendar.ParseIsoFormat | app/utils/date_utils.py:58 | `strptime(str(d), '%Y-%m-%d')` gives d back. |
| Calendar.IsoFormatParse | app/utils/date_utils.py:58 | Every string the parser accepts is `str` of the date it yields. |
| Clock.CombineSameDate | app/utils/calculators.py:17-21 | Two times combined with the same date are exactly as many seconds apart as the times. |
| DateUtils.GetWeekRange | app/utils/date_utils.py:6-19 | The start is a Monday and the end is start + 6 days. start ≤ date ≤ end. It fails with `OverflowError` exactly when that Sunday is past 9999-12-31. |
| DateUtils.BackToMonday | app/utils/date_utils.py:15 | `date − weekday` days never leaves the calendar, is a Monday, and is on or before the date, less than 7 days back. |
| DateUtils.DayOfWeek | app/utils/date_utils.py:15 | The day j days after a Monday (0 ≤ j ≤ 6) has weekday j. |
| DateUtils.WeekRangeIdempotent | app/utils/date_utils.py:15-17 | Every day of a window has that same window. |
| DateUtils.MondayWeekRange | app/utils/date_utils.py:15-17 | A Monday's window starts on that Monday. |
| DateUtils.GetWeekNumber | app/utils/date_utils.py:21-23 | The ISO week number, from `isocalendar()`'s algorithm, is in 1..53. |
| DateUtils.IsoCalendarPlace | app/utils/date_utils.py:21-23 | `isocalendar()` places a date in its ISO week. The week's Monday is week 1's Monday of the ISO year + 7·(week − 1). The day is before week 1 of the next ISO year. The ISO weekday is weekday + 1. The ISO year is within one of the calendar year. |
| DateUtils.InIsoWeekUnique | app/utils/date_utils.py:23 | Two days with the same Monday have the same ISO year and week. |
| DateUtils.WeekNumberOfWindow | app/utils/date_utils.py:21-23 | All days of a Monday-to-Sunday window have the same week number. |
| DateUtils.IsoCalendarExamples | app/utils/date_utils.py:23 | 2021-01-01 is (2020, 53, 5). 2024-12-30 is (2025, 1, 1). |
| DateUtils.IsoYearLength | app/utils/date_utils.py:23 | Consecutive ISO years start 52 or 53 weeks apart. |
| DateUtils.GetWeeksRange | app/utils/date_utils.py:25-49 | A year outside 1..9999 gives `ValueError`, or `OverflowError` when it does not fit a C `int` (the conversion `date()` makes first). 9999 gives `OverflowError`, because the Sunday of window 52 is past `date.max`. Every other year gives the 53-entry table `WeekTable`, so the break never fires. |
| DateUtils.TableWindowsFit | app/utils/date_utils.py:38-44 | All 53 rounds start on or before 31 December, so `week_start.year > year` never holds. Only round 52 of 9999 overflows. |
| DateUtils.LastYearTable | app/utils/date_utils.py:40 | In 9999 the table starts on ordinal 3651691. Window 51's Sunday fits; window 52's would be past 3652059. |
| DateUtils.WeekTableEntry | app/utils/date_utils.py:38-47 | Entry i is a Monday-to-Sunday window starting 7·i days after the first Monday. It starts in the year or before. It is the window `get_week_range` gives for its Monday. Its label is `Semana i+1 (dd/mm - dd/mm)` from its own dates. |
| DateUtils.WeekTableContiguous | app/utils/date_utils.py:39-40 | Each window starts the day after the previous one ends. |
| DateUtils.WeekTableFirst | app/utils/date_utils.py:34-36 | The first window is the window of 1 January: it starts on the Monday on or before it. |
| DateUtils.WindowsSpan | app/utils/date_utils.py:38-40 | The first n windows hold exactly the days from the first Monday to 7·n − 1 days after it. |
| DateUtils.WeekTableCoverage | app/utils/date_utils.py:34-47 | A day of the year is in some window iff it is not 31 December of a leap year starting on a Sunday. |
| DateUtils.LeapSundayYearMissesDay | app/utils/date_utils.py:38-47 | In such a year the last window ends on 30 December and 31 December is in no window. |
| DateUtils.LeapSunday2012 | app/utils/date_utils.py:38-47 | 2012 is such a year. |
| DateUtils.WeekCountValue | app/utils/date_utils.py:38-44 | 53 windows start within a year, 54 in a leap year starting on a Sunday. The last one fits before 9999. |
| DateUtils.CoveringWeekTable | app/utils/date_utils.py:38-47 | The corrected table has one window per Monday-start on or before 31 December. |
| DateUtils.CoveringWeekTableCovers | app/utils/date_utils.py:38-47 | The corrected table holds every day of the year. |
| DateUtils.CoveringWeekTableExtends | app/utils/date_utils.py:38-47 | The corrected table is the 53-entry table plus a 54th window, added exactly when the 53 miss 31 December. |
| Records.RecordDate | app/utils/date_utils.py:58-62 | A date is read only from a present `Fecha` that `strptime` accepts. A missing key or an unparsable value gives none (the skipped `KeyError`/`ValueError`). |
| Records.FilterRecordsByWeek | app/utils/date_utils.py:51-63 | The loop returns `Kept`: the records with a readable date in [start, end], in input order. |
| Records.KeptMembership | app/utils/date_utils.py:56-60 | A record is in the result exactly when it is in the input and its date is in the window. |
| Records.KeptLength | app/utils/date_utils.py:55-63 | The result is never longer than the input. It is as long exactly when every record is in the window. |
| Records.KeptAppend | app/utils/date_utils.py:55-63 | Filtering a concatenation is concatenating the filtered parts, so order is preserved. |
| Records.KeptIdempotent | app/utils/date_utils.py:55-63 | Filtering twice by the same window changes nothing. |
| Records.InWeekIsSameWeek | app/utils/date_utils.py:59 | With the window of a date, a record is kept exactly when its own date has that window. |
| Records.SavedRecordFound | app/utils/date_utils.py:58-59 | A row stored with `str(fecha)` under `Fecha` reads back as `fecha`. It is kept exactly when `fecha` is in the window. |
| MainApp.ValidateSchedule | app/main.py:163-168 | The older check accepts exactly when exit > entry; `ScheduleChecksAgree` shows it accepts everything the utils check does and more exactly for shifts over 16 h. |
| MainApp.CalculateHours | app/main.py:170-184 | Each time is put on the date its own `date.today()` call returns (lines 172 and 173). Decimal hours are the seconds between the two datetimes / 3600, day difference included. When both dates are equal, the text is the one `calculate_worked_hours` gives on that date. |
| MainApp.CalculatePayment | app/main.py:186-196 | Hourly exactly below 5 h 59 min, the bonus exactly in [5 h 59 min, 6 h 1 min] paying `BONO_6H`, overtime paying `BONO_6H` + (h − 6)·`VALOR_HORA`; `PaymentAgrees` shows it equals the utils rule for every input. |
| MainApp.ScheduleChecksAgree | app/main.py:163-168 | The older check accepts exactly when exit > entry. It accepts everything the utils check accepts. It accepts more exactly for shifts over 16 h. |
| MainApp.LongShiftDisagreement | app/main.py:163-168 | 00:00:00 to 23:59:59 passes the older check and is refused by the utils check as too long. |
| MainApp.HoursAgree | app/main.py:170-184 | When both `date.today()` calls return the same date, the older hour count gives the same text and decimal hours as `calculate_worked_hours` on any date. |
| MainApp.MidnightBetweenCalls | app/main.py:172-175 | When midnight passes between the two `date.today()` calls, the exit lands on the next day and the shift counts exactly 24 hours more than `calculate_worked_hours` gives. |
| MainApp.MidnightExample | app/main.py:172-184 | So 08:00 to 17:00 across midnight shows `"33:00"`, 33 hours, and base pay 518500. |
| MainApp.ConfigMatchesSettings | app/main.py:101-105 | `AppConfig` holds the same rate, bonus, tolerance and surcharges as `Settings`. |
| MainApp.PaymentAgrees | app/main.py:186-196 | The older pay rule gives the same amount and kind as the utils one for every number of hours. |
| MainApp.Calculate | app/main.py:237-240 | Results exist exactly when the older schedule check passes. The total is then the base pay plus the surcharge, whatever the kind and whatever dates the two clock reads return. |
| MainApp.RecargosAreSteps | app/main.py:230-234 | A surcharge is on offer exactly when it is a multiple of 5000 in [0, 40000]. |
| MainApp.CalculateMatchesUtils | app/main.py:237-240 | With a listed surcharge, the total exceeds the base pay by 0 to 40000. When both clock reads return the same date, the hours text, the base pay and the kind are those of the utils functions. |

## Left out

- The Streamlit user interface (`app/components/`, `main()`, `banner_reglas`) and the `st.error` side effect of the older schedule check: display only.
- Google Sheets access (`app/services/google_sheets.py`, `get_google_sheets_client`, `ensure_headers`, `check_duplicate`) and credential loading: network and secrets. The settings constants are module constants.
- The current date: `date.today()` (the `None` defaults of `get_week_range`/`get_weeks_range`, `validate_future_date`) is a parameter; the two reads in `calculate_hours` are two parameters, and nothing ties them to a real clock.
- Microseconds of `datetime.time`: times are whole seconds.
- IEEE floating point: hours and pay are exact reals. A float near 5 h 59 min may fall on the other side of the band in Python.
- Calendar.ParseIsoDate: accepts only the zero-padded ASCII `YYYY-MM-DD` form. The leniencies of `strptime` are not modelled: an unpadded month or day (`2024-1-5`), a space before a one-digit day (`2024-01- 5`), and non-ASCII decimal digits. Surrounding text is refused by both.
- Records.RecordDate: a `Fecha` cell that is not a string (gspread may numericise cells) is not modelled; records are string-to-string maps.
- The logging and re-raise branches of app/utils/calculators.py:34-36 and 68-70: no modelled input raises there.
- Validators.ValidateSchedule: the catch-all of app/utils/validators.py:39-41, which logs and returns `(False, "❌ Error validando los horarios")`, is not modelled and that fourth message is not carried; no modelled input raises inside the check.
- `HORAS_MAXIMO_TURNO`: declared in `Settings`, but the validator compares with the literal 16, as the source does.
- Weekly aggregation (`render_weekly_summary`, `render_weekly_statistics`) is not part of this model. The dashboard's parsing of `total_pagado` strings is float parsing in UI code.

## Findings

| source | as written | input that shows it | evidently intended | confidence | as-written member | corrected member |
|---|---|---|---|---|---|---|
| app/utils/date_utils.py:38-47 | The loop runs 53 rounds from the Monday on or before 1 January. The break never fires. | Year 2012: a leap year starting on a Sunday. Window 53 ends on Sunday 30 December, so Monday 31 December 2012 is in no window. | The windows cover every day of the year. That needs a 54th window in such years. | high, not executed | DateUtils.LeapSundayYearMissesDay | DateUtils.CoveringWeekTableCovers |
