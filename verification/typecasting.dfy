/** `FixedMinLength` and `FixedMinLengthDefault` (common/typecasting.go): pad a
    string with spaces on both sides up to a minimum width. Go measures `len(s)`
    in bytes; here a string is a sequence of characters, which agrees for ASCII. */
module TypeCasting {

  /** `DefaultStringLength`. */
  const DefaultStringLength: nat := 4

  /** `strings.Repeat(" ", k)`. */
  function Spaces(k: nat): (r: string)
    ensures |r| == k
    ensures forall i | 0 <= i < k :: r[i] == ' '
  {
    if k == 0 then "" else " " + Spaces(k - 1)
  }

  /** A string at least `n` long comes back unchanged. A shorter one is centred in
      exactly `n` characters: `(n - len) / 2` spaces on the left, the rest on the
      right, so the right pad is the left pad or one more. */
  function FixedMinLength(s: string, n: int): (r: string)
    ensures |s| >= n ==> r == s
    ensures |s| < n ==> |r| == n
    ensures |s| < n ==> var pad := (n - |s|) / 2;
      && r[pad..pad + |s|] == s
      && (forall i | 0 <= i < pad :: r[i] == ' ')
      && (forall i | pad + |s| <= i < n :: r[i] == ' ')
      && pad <= n - |s| - pad <= pad + 1
  {
    var ls := |s|;
    if ls >= n then s
    else
      var diff1 := (n - ls) / 2;
      var diff2 := n - ls - diff1;
      var r := Spaces(diff1) + s + Spaces(diff2);
      assert r[diff1..diff1 + ls] == s;
      r
  }

  /** `FixedMinLengthDefault`: `FixedMinLength` at the default width of 4. */
  function FixedMinLengthDefault(s: string): (r: string)
    ensures |r| == if |s| >= DefaultStringLength then |s| else DefaultStringLength
    ensures |s| >= DefaultStringLength ==> r == s
    ensures r == FixedMinLength(s, DefaultStringLength)
  {
    FixedMinLength(s, DefaultStringLength)
  }

  /** Padding is idempotent: a padded string is already wide enough. */
  lemma FixedMinLengthIdempotent(s: string, n: int)
    ensures FixedMinLength(FixedMinLength(s, n), n) == FixedMinLength(s, n)
  {
  }

  /** Worked cases: one character in width 4 gets one space before and two after;
      a four-character string is left alone. */
  lemma FixedMinLengthExamples()
    ensures FixedMinLength("7", 4) == " 7  "
    ensures FixedMinLength("10", 4) == " 10 "
    ensures FixedMinLength("1024", 4) == "1024"
    ensures FixedMinLength("", 3) == " " + "  "
  {
  }
}
