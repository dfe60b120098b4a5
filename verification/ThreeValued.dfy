/** SQL's truth values; only `True` keeps a row. */
module ThreeValued {
  datatype Truth = True | False | Unknown

  function Conjunction(a: Truth, b: Truth): Truth {
    if a == False || b == False then False else if a == True && b == True then True else Unknown
  }

  function Disjunction(a: Truth, b: Truth): Truth {
    if a == True || b == True then True else if a == False && b == False then False else Unknown
  }
}
