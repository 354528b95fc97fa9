/** The CEP input sanitiser of the lookup widget: every change of the text
    field keeps only the characters '0'..'9' (the regular expression class
    \D of JavaScript, without the unicode flag, is everything else) and then
    keeps at most the first eight of them. */
module CepInput {

  /** Number of digits in a Brazilian postal code. */
  const CepLength: nat := 8

  predicate IsDigit(c: char) {
    '0' <= c <= '9'
  }

  predicate AllDigits(s: string) {
    forall i :: 0 <= i < |s| ==> IsDigit(s[i])
  }

  /** A value the text field can hold: digits only, at most eight of them. */
  predicate IsSanitised(s: string) {
    AllDigits(s) && |s| <= CepLength
  }

  /** The `replace(/\D/g, '')` step: drop every non-digit, keep the order. */
  function Digits(s: string): (r: string)
    ensures AllDigits(r)
    ensures |r| <= |s|
  {
    if s == [] then []
    else if IsDigit(s[0]) then [s[0]] + Digits(s[1..])
    else Digits(s[1..])
  }

  /** The whole sanitiser: `replace(/\D/g, '').slice(0, 8)`. */
  function Sanitise(raw: string): (r: string)
    ensures IsSanitised(r)
    ensures |r| == if |Digits(raw)| < CepLength then |Digits(raw)| else CepLength
    ensures r <= Digits(raw)
  {
    var d := Digits(raw);
    if |d| <= CepLength then d else d[..CepLength]
  }

  /** Reference definition, independent of `Digits`: the positions of `s`
      that hold a digit, in increasing order. */
  function DigitIndices(s: string): (idx: seq<nat>)
    ensures forall k :: 0 <= k < |idx| ==> idx[k] < |s| && IsDigit(s[idx[k]])
    ensures forall j, k :: 0 <= j < k < |idx| ==> idx[j] < idx[k]
    ensures forall i :: 0 <= i < |s| && IsDigit(s[i]) ==> i in idx
  {
    if s == [] then []
    else
      var init := DigitIndices(s[..|s| - 1]);
      assert forall k :: 0 <= k < |init| ==> s[init[k]] == s[..|s| - 1][init[k]];
      if IsDigit(s[|s| - 1]) then init + [|s| - 1] else init
  }

  /** Filtering distributes over concatenation. */
  lemma {:induction false} DigitsAppend(a: string, b: string)
    ensures Digits(a + b) == Digits(a) + Digits(b)
  {
    if a == [] {
      assert a + b == b;
    } else {
      assert (a + b)[0] == a[0] && (a + b)[1..] == a[1..] + b;
      DigitsAppend(a[1..], b);
      if IsDigit(a[0]) {
        assert Digits(a + b) == [a[0]] + (Digits(a[1..]) + Digits(b));
      }
    }
  }

  /** `Digits(s)` is exactly the characters of `s` at its digit positions,
      in their original order. */
  lemma {:induction false} DigitsAtIndices(s: string)
    ensures |Digits(s)| == |DigitIndices(s)|
    ensures forall k :: 0 <= k < |Digits(s)| ==> Digits(s)[k] == s[DigitIndices(s)[k]]
  {
    if s != [] {
      var n := |s| - 1;
      var init := s[..n];
      assert s == init + [s[n]];
      DigitsAppend(init, [s[n]]);
      DigitsAtIndices(init);
      assert Digits([s[n]]) == if IsDigit(s[n]) then [s[n]] else [];
    }
  }

  /** A string of digits passes through the filter unchanged, and only such
      strings do. */
  lemma {:induction false} DigitsIdentity(s: string)
    ensures Digits(s) == s <==> AllDigits(s)
  {
    if s != [] && AllDigits(s) {
      assert AllDigits(s[1..]) by {
        forall i | 0 <= i < |s[1..]| ensures IsDigit(s[1..][i]) {
          assert s[1..][i] == s[i + 1];
        }
      }
      DigitsIdentity(s[1..]);
    }
  }

  /** The sanitised value is the first min(8, number of digits) digits of
      the raw input, in the order they were typed. */
  lemma SanitiseSelectsFirstDigits(raw: string)
    ensures var r := Sanitise(raw);
      |r| == (if |DigitIndices(raw)| < CepLength then |DigitIndices(raw)| else CepLength) &&
      forall k :: 0 <= k < |r| ==> r[k] == raw[DigitIndices(raw)[k]]
  {
    DigitsAtIndices(raw);
  }

  /** Values the field can already hold are left alone, and nothing else is. */
  lemma SanitiseFixpoint(s: string)
    ensures Sanitise(s) == s <==> IsSanitised(s)
  {
    DigitsIdentity(s);
  }

  /** Sanitising twice is sanitising once. */
  lemma SanitiseIdempotent(raw: string)
    ensures Sanitise(Sanitise(raw)) == Sanitise(raw)
  {
    SanitiseFixpoint(Sanitise(raw));
  }

  /** Typing more characters after the current value never changes the
      digits already accepted, as long as there is room for them. */
  lemma SanitiseExtends(s: string, typed: string)
    requires IsSanitised(s)
    ensures s <= Sanitise(s + typed)
  {
    DigitsAppend(s, typed);
    DigitsIdentity(s);
  }
}
