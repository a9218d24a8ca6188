/** Python's `str.strip` and its halves. */
module PythonText {

  /** What Python's `str.strip` removes. */
  predicate IsSpace(c: char) {
    || '\t' <= c <= '\r' || '\U{1c}' <= c <= ' ' || c == '\U{85}' || c == '\U{a0}' || c == '\U{1680}'
    || '\U{2000}' <= c <= '\U{200a}' || c == '\U{2028}' || c == '\U{2029}' || c == '\U{202f}'
    || c == '\U{205f}' || c == '\U{3000}'
  }

  function StripLeft(s: string): string {
    if s != "" && IsSpace(s[0]) then StripLeft(s[1..]) else s
  }

  function StripRight(s: string): string {
    if s != "" && IsSpace(s[|s| - 1]) then StripRight(s[..|s| - 1]) else s
  }

  function Strip(s: string): string {
    StripRight(StripLeft(s))
  }

  /** The twenty-nine characters `str.isspace` holds of. */
  lemma IsSpaceExact(c: char)
    ensures IsSpace(c) <==>
            c in "\t\n\U{b}\U{c}\r\U{1c}\U{1d}\U{1e}\U{1f} \U{85}\U{a0}\U{1680}\U{2000}\U{2001}\U{2002}\U{2003}"
               + "\U{2004}\U{2005}\U{2006}\U{2007}\U{2008}\U{2009}\U{200a}\U{2028}\U{2029}\U{202f}\U{205f}\U{3000}"
  {
  }

  /** Stripping takes the white space in front, and no more. */
  lemma {:induction false} StripLeftExact(s: string) returns (k: nat)
    ensures k <= |s| && StripLeft(s) == s[k..]
    ensures (forall i :: 0 <= i < k ==> IsSpace(s[i])) && (k < |s| ==> !IsSpace(s[k]))
    decreases |s|
  {
    hide IsSpace;
    k := 0;
    if s != "" && IsSpace(s[0]) {
      var m := StripLeftExact(s[1..]);
      k := m + 1;
      assert forall i :: 1 <= i < k ==> s[i] == s[1..][i - 1];
    }
  }

  /** And behind. */
  lemma {:induction false} StripRightExact(s: string) returns (k: nat)
    ensures k <= |s| && StripRight(s) == s[..k]
    ensures (forall i :: k <= i < |s| ==> IsSpace(s[i])) && (k > 0 ==> !IsSpace(s[k - 1]))
    decreases |s|
  {
    hide IsSpace;
    k := |s|;
    if s != "" && IsSpace(s[|s| - 1]) {
      var init := s[..|s| - 1];
      k := StripRightExact(init);
      assert forall i :: 0 <= i < |init| ==> s[i] == init[i];
      assert init[..k] == s[..k];
    }
  }

  /** A text is white space, what `strip` leaves, and white space. */
  lemma StripExact(s: string) returns (i: nat, j: nat)
    ensures i <= j <= |s| && Strip(s) == s[i..j]
    ensures forall k :: 0 <= k < |s| && !(i <= k < j) ==> IsSpace(s[k])
    ensures i < j ==> !IsSpace(s[i]) && !IsSpace(s[j - 1])
  {
    hide IsSpace, StripLeft, StripRight;
    i := StripLeftExact(s);
    var rest := s[i..];
    var k := StripRightExact(rest);
    j := i + k;
    assert forall n :: i <= n < |s| ==> s[n] == rest[n - i];
    assert rest[..k] == s[i..j];
  }
}
