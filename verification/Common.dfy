/** Small datatypes shared by the component models. */
module Common {
  datatype Option<+T> = None | Some(value: T)

  function Min(a: int, b: int): int {
    if a <= b then a else b
  }

  lemma ThreeParts<T>(a: seq<T>, b: seq<T>, c: seq<T>)
    ensures a + b + c == a + (b + c)
  {
  }

  /** The part before the first `stop`: what is left of bytes read as a zero-terminated string. */
  function Until<T(==)>(s: seq<T>, stop: T): (r: seq<T>)
    ensures stop !in r && r <= s
    ensures stop !in s ==> r == s
  {
    if s == [] || s[0] == stop then [] else [s[0]] + Until(s[1..], stop)
  }
}
