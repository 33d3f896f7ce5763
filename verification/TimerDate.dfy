/** The calendar fields of libtimer/timer_date.h. */
module TimerDate {

  datatype Unit = Year | Month | Week | DayOfMonth | DayOfWeek | DayOfYear | Hour | Minute | Second

  /** What Get and Set touch of struct tm. */
  datatype Tm = Tm(year: int, mon: int, yday: int, wday: int, mday: int, hour: int, min: int, sec: int)

  function Read(tm: Tm, unit: Unit): int {
    match unit
    case Year => tm.year + 1900
    case Month => tm.mon + 1
    case Week => Quotient7(tm.yday) + 1
    case DayOfWeek => tm.wday + 1
    case DayOfMonth => tm.mday
    case DayOfYear => tm.yday + 1
    case Hour => tm.hour
    case Minute => tm.min
    case Second => tm.sec
  }

  /** Division by 7 that truncates, as in C++. */
  function Quotient7(n: int): int {
    if n >= 0 then n / 7 else -((-n) / 7)
  }

  /** The values that Set takes; all others leave the date as it is. */
  predicate Settable(value: int, unit: Unit) {
    && value >= 0
    && match unit
       case Year => true
       case Month => value < 12
       case Week => false
       case DayOfWeek => value < 7
       case DayOfMonth => value <= 31
       case DayOfYear => value < 366
       case Hour => value < 24
       case Minute => value < 60
       case Second => value < 60
  }

  function Written(tm: Tm, value: int, unit: Unit): Tm {
    if !Settable(value, unit) then tm
    else match unit
      case Year => tm.(year := value - 1900)
      case Month => tm.(mon := value - 1)
      case Week => tm
      case DayOfWeek => tm.(yday := Quotient7(tm.yday) + value - 1)
      case DayOfMonth => tm.(mday := value)
      case DayOfYear => tm.(yday := value - 1)
      case Hour => tm.(hour := value)
      case Minute => tm.(min := value)
      case Second => tm.(sec := value)
  }

  /** The units that Set and Get treat as independent fields. */
  predicate Plain(unit: Unit) {
    unit.Year? || unit.Month? || unit.DayOfMonth? || unit.Hour? || unit.Minute? || unit.Second?
  }

  /** A value that is taken is read back, and the other plain units are as before. */
  lemma ReadWritten(tm: Tm, value: int, unit: Unit, other: Unit)
    requires Plain(unit) && Plain(other) && Settable(value, unit)
    ensures Read(Written(tm, value, unit), other) == if other == unit then value else Read(tm, other)
  {
    match unit
    case Year => match other { case _ => }
    case Month => match other { case _ => }
    case DayOfMonth => match other { case _ => }
    case Hour => match other { case _ => }
    case Minute => match other { case _ => }
    case Second => match other { case _ => }
  }

  /** The other units: a week is never set, a day of the year is read back, and setting the
      day of the week leaves it and moves the day of the year instead. */
  lemma OtherUnits(tm: Tm, value: int)
    ensures tm.yday >= 0 ==> 7 * (Read(tm, Week) - 1) <= tm.yday < 7 * Read(tm, Week)
    ensures Written(tm, value, Week) == tm
    ensures Settable(value, DayOfYear) ==>
              Written(tm, value, DayOfYear) == tm.(yday := value - 1) && Read(Written(tm, value, DayOfYear), DayOfYear) == value
    ensures var tm' := Written(tm, value, DayOfWeek);
            && Read(tm', DayOfWeek) == Read(tm, DayOfWeek)
            && (Settable(value, DayOfWeek) ==> Read(tm', DayOfYear) == Quotient7(tm.yday) + value && tm' == tm.(yday := tm'.yday))
  {
  }

  class Date {
    var date: Tm

    constructor (date: Tm)
      ensures this.date == date
    {
      this.date := date;
    }

    function Get(unit: Unit): int
      reads this
    {
      Read(date, unit)
    }

    method Set(value: int, unit: Unit)
      modifies this
      ensures date == Written(old(date), value, unit)
    {
      if value < 0 {
        return;
      }
      match unit {
        case Year =>
          date := date.(year := value - 1900);
        case Month =>
          if value >= 12 { return; }
          date := date.(mon := value - 1);
        case Week =>
        case DayOfWeek =>
          if value >= 7 { return; }
          date := date.(yday := Quotient7(date.yday) + value - 1);
        case DayOfMonth =>
          if value > 31 { return; }
          date := date.(mday := value);
        case DayOfYear =>
          if value >= 366 { return; }
          date := date.(yday := value - 1);
        case Hour =>
          if value >= 24 { return; }
          date := date.(hour := value);
        case Minute =>
          if value >= 60 { return; }
          date := date.(min := value);
        case Second =>
          if value >= 60 { return; }
          date := date.(sec := value);
      }
    }
  }
}
