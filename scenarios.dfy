/**
 * The address heuristic applied to a typical address line of a directory
 * page.
 */
module Scenarios {
  import opened Pattern

  /** A street address with a suburb after the comma is recognised:
      number, street name, street type, comma, space. */
  lemma StreetAddressRecognised()
    ensures LooksLikeAddress("770 george st, sydney")
  {
    var s := "770 george st, sydney";
    assert s[0] == '7' && s[1] == '7' && s[2] == '0' && s[3] == ' ' && s[4] == 'g' && s[5] == 'e' && s[6] == 'o' && s[7] == 'r' && s[8] == 'g' && s[9] == 'e' && s[10] == ' ' && s[11] == 's' && s[12] == 't' && s[13] == ',' && s[14] == ' ';
    AddressShape(s, 0, 3, 4, 10, 11, 13, 14);
  }
}
