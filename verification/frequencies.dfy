/** `count_frequencies`: a `Counter` over the characters of the text. */
module Frequencies {

  /**
   * Every character of the text is a key, nothing else is, and each key
   * maps to the number of times it occurs.
   */
  function CountFrequencies(s: string): (counts: map<char, nat>)
    ensures forall c :: c in counts <==> c in s
    ensures forall c | c in counts :: counts[c] == multiset(s)[c] && counts[c] > 0
  {
    if s == [] then map[]
    else
      var init, c := s[..|s| - 1], s[|s| - 1];
      assert s == init + [c];
      var m := CountFrequencies(init);
      m[c := if c in m then m[c] + 1 else 1]
  }
}
