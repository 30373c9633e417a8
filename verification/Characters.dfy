/**
 What `std::istream >>` skips, used by the calculator (prac/cal.cpp) and the queries (prac/tq.cpp).
 */
module Characters {

  predicate IsBlank(c: char) {
    c == ' ' || c == '\t' || c == '\n' || c == '\r' || c as int == 11 || c as int == 12
  }
}
