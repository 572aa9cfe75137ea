/** A byte as a number and as a bit-vector. */
module Octet {
  lemma Next(w: bv8)
    requires w as int < 255
    ensures (w + 1) as int == w as int + 1
  {
  }

  /** The bit-vector with that value. */
  function Word(x: int): (w: bv8)
    requires 0 <= x < 256
    ensures w as int == x
  {
    if x == 0 then 0 else Next(Word(x - 1)); Word(x - 1) + 1
  }

  lemma WordBack(w: bv8)
    ensures Word(w as int) == w
  {
    SameWord(Word(w as int), w);
  }

  lemma SameWord(v: bv8, w: bv8)
    requires v as int == w as int
    ensures v == w
  {
  }
}
