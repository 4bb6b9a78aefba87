/**
 * Character-level helpers shared by the solver and the request validators:
 * an Option type, the search a negated regular-expression character class
 * performs, `String.prototype.indexOf` for one character, and `parseInt`
 * applied to a single character.
 */
module Text {

  datatype Option<T> = None | Some(value: T)

  /** Whether `s` holds a character outside `allowed`: what `/[^...]/.test(s)` decides. */
  function ContainsOutside(s: string, allowed: string): (found: bool)
    ensures found <==> exists i :: 0 <= i < |s| && s[i] !in allowed
  {
    if s == [] then false
    else if s[0] !in allowed then true
    else
      assert forall i :: 1 <= i < |s| ==> s[i] == s[1..][i - 1];
      ContainsOutside(s[1..], allowed)
  }

  /** Position of the first occurrence of `c` in `s`, or -1 when there is none. */
  function IndexOf(s: string, c: char): (k: int)
    ensures -1 <= k < |s|
    ensures k == -1 <==> c !in s
    ensures 0 <= k ==> s[k] == c && forall j :: 0 <= j < k ==> s[j] != c
  {
    if s == [] then -1
    else if s[0] == c then 0
    else
      var k := IndexOf(s[1..], c);
      if k == -1 then -1 else k + 1
  }

  /** `parseInt` of a one-character string: its decimal value, or None for NaN. */
  function ParseDigit(c: char): (n: Option<int>)
    ensures n.Some? <==> '0' <= c <= '9'
    ensures n.Some? ==> 0 <= n.value <= 9 && (n.value + '0' as int) as char == c
  {
    if '0' <= c <= '9' then Some(c as int - '0' as int) else None
  }
}
