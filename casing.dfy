/** The part of String.prototype.toLowerCase that the roster lookup relies on:
    the upper-case letters of ASCII and of Latin-1 map to their lower-case
    letters, every other character is kept. */
module Casing {

  /** An upper-case letter whose lower-case form is 32 code points further on:
      'A'..'Z', and U+00C0..U+00DE without the multiplication sign U+00D7. */
  predicate IsUpper(c: char) {
    ('A' <= c <= 'Z') || ('\U{00C0}' <= c <= '\U{00DE}' && c != '\U{00D7}')
  }

  function LowerChar(c: char): (d: char)
    ensures !IsUpper(d)
    ensures !IsUpper(c) ==> d == c
    ensures IsUpper(c) ==> d as int == c as int + 32
  {
    if IsUpper(c) then (c as int + 32) as char else c
  }

  function Lower(s: string): (r: string)
    ensures |r| == |s|
    ensures forall i :: 0 <= i < |s| ==> r[i] == LowerChar(s[i])
  {
    if s == [] then [] else [LowerChar(s[0])] + Lower(s[1..])
  }

  /** Lowering a lowered string changes nothing. */
  lemma LowerIdempotent(s: string)
    ensures Lower(Lower(s)) == Lower(s)
  {
    var t := Lower(s);
    assert forall i :: 0 <= i < |t| ==> Lower(t)[i] == t[i] by {
      forall i | 0 <= i < |t| ensures Lower(t)[i] == t[i] {
        assert !IsUpper(t[i]);
      }
    }
  }

  /** Two strings that agree once lowered agree in length; in particular the
      empty string is the only one whose lower-case form is empty. */
  lemma SameLowerSameLength(a: string, b: string)
    requires Lower(a) == Lower(b)
    ensures |a| == |b|
    ensures a == "" <==> b == ""
  {
  }
}
