/** Time.isValidTime: the pattern check every start and end time text goes through. */
module Time {

  const TIME_VALIDATION_REGEX := ".+"
  const MESSAGE_INVALID_DURATION := "Starting time must be before ending time!"

  /** The characters the regular-expression dot does not match: \n, \r, U+0085, U+2028, U+2029. */
  predicate IsLineTerminator(c: char) {
    c == '\n' || c == '\r' || c == '\U{85}' || c == '\U{2028}' || c == '\U{2029}'
  }

  /** The pattern .+ matched against the whole of s: one dot, then the rest matched by .* */
  function IsValidTime(s: string): (r: bool)
    ensures r <==> s != [] && forall j :: 0 <= j < |s| ==> !IsLineTerminator(s[j])
  {
    |s| >= 1 && !IsLineTerminator(s[0]) && (|s| == 1 || IsValidTime(s[1..]))
  }

  /** A text gets no longer valid by losing characters at its end. */
  lemma {:induction false} ValidPrefix(s: string, n: nat)
    requires IsValidTime(s) && 1 <= n <= |s|
    ensures IsValidTime(s[..n])
  {
    assert forall j :: 0 <= j < n ==> s[..n][j] == s[j];
  }

  /** Appending a character other than a line terminator keeps a valid time text valid. */
  lemma ValidExtends(s: string, c: char)
    requires IsValidTime(s) && !IsLineTerminator(c)
    ensures IsValidTime(s + [c])
  {
    assert forall j :: 0 <= j < |s| ==> (s + [c])[j] == s[j];
  }

  /** Both ends of a valid text split into valid texts wherever the split is. */
  lemma {:induction false} ValidConcat(a: string, b: string)
    requires a != [] && b != []
    ensures IsValidTime(a + b) <==> IsValidTime(a) && IsValidTime(b)
  {
    var s := a + b;
    assert forall j :: 0 <= j < |a| ==> s[j] == a[j];
    assert forall j :: 0 <= j < |b| ==> s[|a| + j] == b[j];
    if IsValidTime(a) && IsValidTime(b) {
      forall j | 0 <= j < |s|
        ensures !IsLineTerminator(s[j])
      {
        if j >= |a| {
          assert s[j] == b[j - |a|];
        }
      }
    }
  }

  /** The empty text is not a valid time text. */
  lemma EmptyInvalid()
    ensures !IsValidTime("")
  {
  }

  /** The texts of the time validation test cases are valid, whatever date they mean. */
  lemma TimeExamples(s: string)
    requires s in {"March Fifteenth", "20170315", "By end of March", "March 15 2017", "March 15, 2017"}
    ensures IsValidTime(s)
  {
    PrintableValid(s);
  }

  /** Every character of s lies between the space and the tilde. */
  predicate Printable(s: string) {
    forall j :: 0 <= j < |s| ==> ' ' <= s[j] <= '~'
  }

  /** A non-empty text of printable ASCII characters is a valid time text. */
  lemma PrintableValid(s: string)
    requires s != [] && Printable(s)
    ensures IsValidTime(s)
  {
  }

  /** A text that runs onto a second line is not valid. */
  lemma MultiLineInvalid()
    ensures !IsValidTime("4:18\n")
  {
    var s := "4:18\n";
    assert s[4] == '\n';
  }
}
