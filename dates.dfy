/** Calendar dates as `java.time.LocalDate` compares them: by year, then
    month, then day. */
module Dates {

  datatype Date = Date(year: int, month: int, day: int)

  /** `a.isBefore(b)`: strictly earlier in lexicographic order. */
  predicate IsBefore(a: Date, b: Date)
    ensures IsBefore(a, b) ==> a != b && a.year <= b.year
    ensures a.year < b.year ==> IsBefore(a, b)
  {
    a.year < b.year
    || (a.year == b.year && a.month < b.month)
    || (a.year == b.year && a.month == b.month && a.day < b.day)
  }

  /** `a.isAfter(b)`: strictly later, that is, `b` is before `a`. */
  predicate IsAfter(a: Date, b: Date)
    ensures IsAfter(a, b) ==> a != b && !IsBefore(a, b)
    ensures !IsAfter(a, b) ==> a == b || IsBefore(a, b)
  {
    IsBefore(b, a)
  }
}
