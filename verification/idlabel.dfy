/**
 * The number label of a card: `pokemon.id.toString().padStart(3, '0')`.
 */
module IdLabel {
  import opened Text

  /**
   * The label text after the `#` sign: the decimal form of the id preceded by
   * zeros up to three characters, never shorter than three and never longer
   * than the decimal form itself.
   */
  function PadId(id: int): (r: string)
    ensures var d := ToDecimal(id);
      && |r| == (if |d| >= 3 then |d| else 3)
      && r[|r| - |d|..] == d
      && (forall i :: 0 <= i < |r| - |d| ==> r[i] == '0')
  {
    PadStart(ToDecimal(id), 3, '0')
  }

  /** Exactly the ids below 1000 get a three-character label. */
  lemma PadIdWidth(id: nat)
    ensures |PadId(id)| == 3 <==> id < 1000
  {
    DigitsAtMostThree(id);
  }

  /** Reading the label as a decimal number gives the id back: the padding zeros
      do not change its value. */
  lemma PadIdRoundTrip(id: nat)
    ensures AllDigits(PadId(id)) && ValueOf(PadId(id)) == id
  {
    var d := Digits(id);
    var shown := PadId(id);
    var z := shown[..|shown| - |d|];
    assert shown == z + d;
    ValueOfLeadingZeros(z, d);
    ValueOfDigits(id);
  }

  /** Different non-negative ids get different labels. */
  lemma PadIdInjective(a: nat, b: nat)
    requires PadId(a) == PadId(b)
    ensures a == b
  {
    PadIdRoundTrip(a);
    PadIdRoundTrip(b);
  }
}
