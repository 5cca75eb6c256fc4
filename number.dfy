/** The digit-and-dot test both `ParseNumber`s run over a number token
    (IniReader.h and IniReader.cpp share the loop and its three checks; only the
    exceptions they throw differ). */
module IniNumber {
  import opened IniText

  /** A token the loop lets through: digits and dots only, at most one dot, and not
      the single character `.`; the empty token passes. */
  predicate IsNumberToken(t: string) {
    && (forall i :: 0 <= i < |t| ==> IsDigitChar(t[i]) || t[i] == '.')
    && Count(t, '.') <= 1
    && t != "."
  }

  /** Which of the loop's checks stops it: `LoneDot` is the first (the token is `.`),
      `ExtraDot` the second (a second dot), `NonDigit` the third (a character that is
      neither digit nor dot); `Number` means none did. */
  datatype TokenVerdict = Number | LoneDot | ExtraDot | NonDigit

  /** Position `i` fails the second or the third check. */
  predicate BadAt(t: string, i: nat)
    requires i < |t|
  {
    (t[i] == '.' && Count(t[..i + 1], '.') > 1) || !(IsDigitChar(t[i]) || t[i] == '.')
  }

  /** The first position at or after `from` that fails a check. */
  function FirstBad(t: string, from: nat): (r: Option<nat>)
    decreases |t| - from
    ensures r.Some? ==> from <= r.value < |t| && BadAt(t, r.value)
    ensures r.Some? ==> forall j :: from <= j < r.value ==> !BadAt(t, j)
    ensures r.None? ==> forall j :: from <= j < |t| ==> !BadAt(t, j)
  {
    if from >= |t| then None
    else if BadAt(t, from) then Some(from)
    else FirstBad(t, from + 1)
  }

  /** The verdict of the loop as a function of the token: the first failing position
      decides, and the lone dot is caught before anything else. */
  function TokenVerdictOf(t: string): TokenVerdict {
    if t == "." then LoneDot
    else match FirstBad(t, 0)
      case None => Number
      case Some(i) => if t[i] == '.' then ExtraDot else NonDigit
  }

  lemma DotsInPrefix(t: string, i: nat)
    requires i < |t|
    ensures Count(t[..i + 1], '.') == Count(t[..i], '.') + (if t[i] == '.' then 1 else 0)
  {
    assert t[..i + 1] == t[..i] + [t[i]];
  }

  /** No failing position means at most one dot in every prefix. */
  lemma {:induction false} NoBadFewDots(t: string, n: nat)
    requires n <= |t|
    requires forall j :: 0 <= j < |t| ==> !BadAt(t, j)
    ensures Count(t[..n], '.') <= 1
  {
    if n > 0 {
      NoBadFewDots(t, n - 1);
      DotsInPrefix(t, n - 1);
      assert !BadAt(t, n - 1);
    }
  }

  /** The loop accepts exactly the number tokens. */
  lemma TokenVerdictNumber(t: string)
    ensures TokenVerdictOf(t) == Number <==> IsNumberToken(t)
  {
    if FirstBad(t, 0).None? {
      NoBadFewDots(t, |t|);
      assert t[..|t|] == t;
      forall j | 0 <= j < |t| ensures IsDigitChar(t[j]) || t[j] == '.' {
        assert !BadAt(t, j);
      }
    }
    if IsNumberToken(t) {
      forall j | 0 <= j < |t| ensures !BadAt(t, j) {
        assert multiset(t[..j + 1]) <= multiset(t) by {
          assert t == t[..j + 1] + t[j + 1..];
        }
      }
    }
  }

  /** The `dotCount` loop of `ParseNumber`, its three checks in the source's order. */
  method ScanNumber(t: string) returns (v: TokenVerdict)
    ensures v == TokenVerdictOf(t)
  {
    var dotCount := 0;
    var i := 0;
    while i < |t|
      invariant 0 <= i <= |t|
      invariant dotCount == Count(t[..i], '.')
      invariant forall j :: 0 <= j < i ==> !BadAt(t, j)
      invariant t == "." ==> i == 0
    {
      if i == 0 && i + 1 == |t| && t[i] == '.' {
        return LoneDot;
      }
      DotsInPrefix(t, i);
      if t[i] == '.' {
        dotCount := dotCount + 1;
        if dotCount > 1 {
          assert BadAt(t, i);
          assert FirstBad(t, 0) == Some(i);
          return ExtraDot;
        }
      }
      if !(IsDigitChar(t[i]) || t[i] == '.') {
        assert BadAt(t, i);
        assert FirstBad(t, 0) == Some(i);
        return NonDigit;
      }
      i := i + 1;
    }
    return Number;
  }
}
