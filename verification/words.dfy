/** Upper-casing of words, restricted to ASCII so that it keeps length. */
module Words {

  predicate IsLower(c: char) {
    'a' <= c <= 'z'
  }

  function UpperChar(c: char): (u: char)
    ensures !IsLower(u)
    ensures IsLower(c) ==> u as int == c as int - 32
    ensures !IsLower(c) ==> u == c
  {
    if IsLower(c) then (c as int - 32) as char else c
  }

  /** `str.upper()` on ASCII text: every lower-case letter is replaced by its
      capital, everything else is kept, and the length never changes. */
  function Upper(w: string): (u: string)
    ensures |u| == |w|
    ensures forall i {:trigger u[i]} :: 0 <= i < |w| ==> u[i] == UpperChar(w[i])
  {
    if w == [] then [] else [UpperChar(w[0])] + Upper(w[1..])
  }

  /** Upper-casing twice is upper-casing once. */
  lemma UpperIdempotent(w: string)
    ensures Upper(Upper(w)) == Upper(w)
  {
    var u := Upper(w);
    assert forall i :: 0 <= i < |u| ==> UpperChar(u[i]) == u[i];
  }

  /** An upper-cased word has no lower-case letter left. */
  lemma UpperHasNoLower(w: string)
    ensures forall i :: 0 <= i < |Upper(w)| ==> !IsLower(Upper(w)[i])
  {
  }
}
